/**
 * Storage-safe file names (src/lib/utils.ts): the name is split at its last
 * dot; the base is stripped of combining marks, lower-cased and reduced to a
 * slug of letters, digits and single dashes, or "file" when nothing is left;
 * the extension keeps only ASCII letters, digits and dots.
 */
module FileNames {

  /** A name cut at its last dot: the extension starts with that dot, or is empty when the name
      has no dot. */
  datatype Split = Split(base: string, ext: string)

  /** The index of the last `.`, or -1. */
  function LastDot(s: string): (r: int)
    ensures -1 <= r < |s|
    ensures r >= 0 ==> s[r] == '.' && forall i :: r < i < |s| ==> s[i] != '.'
    ensures r == -1 ==> '.' !in s
  {
    if s == [] then -1
    else if s[|s| - 1] == '.' then |s| - 1
    else LastDot(s[..|s| - 1])
  }

  /** Base and extension: together they are the name, and the extension is the dot and what
      follows the last dot. */
  function SplitName(name: string): (r: Split)
    ensures r.base + r.ext == name
    ensures r.ext == [] <==> '.' !in name
    ensures r.ext != [] ==> r.ext[0] == '.' && '.' !in r.ext[1..]
    ensures '.' !in name ==> r.base == name
  {
    var dot := LastDot(name);
    if dot != -1 then
      assert name[dot..][1..] == name[dot + 1..];
      Split(name[..dot], name[dot..])
    else Split(name, "")
  }

  /** A combining diacritical mark, U+0300 to U+036F. */
  predicate IsCombiningMark(c: char)
  {
    '\U{0300}' <= c <= '\U{036F}'
  }

  /** The text without its combining marks: a mark on its own is dropped, any other single
      character kept. */
  function StripMarks(s: string): (r: string)
    ensures |r| <= |s|
    ensures forall i :: 0 <= i < |r| ==> !IsCombiningMark(r[i]) && r[i] in s
    ensures (forall i :: 0 <= i < |s| ==> !IsCombiningMark(s[i])) ==> r == s
    ensures |s| == 1 && IsCombiningMark(s[0]) ==> r == []
  {
    if s == [] then ""
    else (if IsCombiningMark(s[0]) then "" else [s[0]]) + StripMarks(s[1..])
  }

  /** Stripping goes character by character, in order: the strip of two texts joined is the two
      strips joined. With the single-character cases this pins the strip down: every character
      other than a mark is kept, in its place. */
  lemma {:induction false} StripMarksAppend(a: string, b: string)
    ensures StripMarks(a + b) == StripMarks(a) + StripMarks(b)
  {
    if a == [] {
      assert a + b == b;
    } else {
      assert (a + b)[1..] == a[1..] + b;
      StripMarksAppend(a[1..], b);
    }
  }

  function LowerChar(c: char): char
  {
    if 'A' <= c <= 'Z' then (c as int + 32) as char else c
  }

  /** ASCII upper-case letters lowered; every other character kept. */
  function LowerAscii(s: string): (r: string)
    ensures |r| == |s|
    ensures forall i :: 0 <= i < |s| ==> r[i] == LowerChar(s[i])
  {
    if s == [] then "" else [LowerChar(s[0])] + LowerAscii(s[1..])
  }

  /** What a slug keeps: a lower-case ASCII letter or a digit. */
  predicate IsSlugChar(c: char)
  {
    'a' <= c <= 'z' || '0' <= c <= '9'
  }

  /** No two adjacent dashes. */
  predicate NoDoubleDash(s: string)
  {
    |s| < 2 || (!(s[0] == '-' && s[1] == '-') && NoDoubleDash(s[1..]))
  }

  /** Dropping the last character keeps a text free of double dashes. */
  lemma {:induction false} NoDoubleDashDropLast(s: string)
    requires s != [] && NoDoubleDash(s)
    ensures NoDoubleDash(s[..|s| - 1])
  {
    if |s| > 2 {
      assert s[..|s| - 1][1..] == s[1..][..|s[1..]| - 1];
      NoDoubleDashDropLast(s[1..]);
    }
  }

  predicate SlugOrDash(s: string)
  {
    forall i :: 0 <= i < |s| ==> IsSlugChar(s[i]) || s[i] == '-'
  }

  /** A slug: letters, digits and single dashes, with no dash at either end. */
  predicate SlugShaped(s: string)
  {
    SlugOrDash(s) && NoDoubleDash(s) && (s != [] ==> s[0] != '-' && s[|s| - 1] != '-')
  }

  /** The letters and digits of a text, in order. */
  function Alphanumerics(s: string): string
  {
    if s == [] then "" else (if IsSlugChar(s[0]) then [s[0]] else "") + Alphanumerics(s[1..])
  }

  /** Every maximal run of characters other than letters and digits replaced by one `-`. */
  function DashRuns(s: string): (r: string)
    ensures SlugOrDash(r) && NoDoubleDash(r)
    ensures r == [] <==> s == []
    ensures r != [] ==> (r[0] == '-' <==> !IsSlugChar(s[0]))
  {
    if s == [] then ""
    else if IsSlugChar(s[0]) then [s[0]] + DashRuns(s[1..])
    else if |s| > 1 && !IsSlugChar(s[1]) then
      var r := DashRuns(s[1..]);
      assert r[0] == '-';
      r
    else "-" + DashRuns(s[1..])
  }

  /** Merging runs into dashes keeps every letter and digit, in order. */
  lemma {:induction false} DashRunsKeepAlphanumerics(s: string)
    ensures Alphanumerics(DashRuns(s)) == Alphanumerics(s)
  {
    if s != [] {
      DashRunsKeepAlphanumerics(s[1..]);
      if IsSlugChar(s[0]) {
        assert ([s[0]] + DashRuns(s[1..]))[1..] == DashRuns(s[1..]);
      } else if !(|s| > 1 && !IsSlugChar(s[1])) {
        assert ("-" + DashRuns(s[1..]))[1..] == DashRuns(s[1..]);
      }
    }
  }

  /** A text that ends in a letter or digit has closed its last run: what follows is merged on
      its own. */
  lemma {:induction false} DashRunsAppend(x: string, y: string)
    requires x == [] || IsSlugChar(x[|x| - 1])
    ensures DashRuns(x + y) == DashRuns(x) + DashRuns(y)
  {
    if x == [] {
      assert x + y == y;
    } else {
      var t := x + y;
      assert t[0] == x[0] && t[1..] == x[1..] + y;
      if |x| == 1 {
        assert t[1..] == y;
      } else {
        assert t[1] == x[1];
        DashRunsAppend(x[1..], y);
      }
    }
  }

  /** A text with no letter and no digit in it. */
  predicate Separators(s: string)
  {
    s == [] || (!IsSlugChar(s[0]) && Separators(s[1..]))
  }

  /** A run of characters other than letters and digits, up to a letter, a digit or the end,
      becomes a single dash. */
  lemma {:induction false} DashRunsOfRun(run: string, y: string)
    requires run != [] && Separators(run)
    requires y == [] || IsSlugChar(y[0])
    ensures DashRuns(run + y) == "-" + DashRuns(y)
  {
    var t := run + y;
    assert t[0] == run[0] && t[1..] == run[1..] + y;
    if |run| == 1 {
      assert t[1..] == y;
    } else {
      assert t[1] == run[1..][0];
      DashRunsOfRun(run[1..], y);
    }
  }

  /** Between two words, a run of other characters becomes exactly one dash, in its place. */
  lemma DashRunsBetweenWords(x: string, run: string, y: string)
    requires x == [] || IsSlugChar(x[|x| - 1])
    requires run != [] && Separators(run)
    requires y == [] || IsSlugChar(y[0])
    ensures DashRuns(x + run + y) == DashRuns(x) + "-" + DashRuns(y)
  {
    calc {
      DashRuns(x + run + y);
      { assert x + run + y == x + (run + y); }
      DashRuns(x + (run + y));
      { DashRunsAppend(x, run + y); }
      DashRuns(x) + DashRuns(run + y);
      { DashRunsOfRun(run, y); }
      DashRuns(x) + ("-" + DashRuns(y));
    }
  }

  /** The text without its leading dashes. */
  function TrimLeadingDashes(s: string): (r: string)
    ensures |r| <= |s| && r == s[|s| - |r|..]
    ensures r == [] || r[0] != '-'
  {
    if s != [] && s[0] == '-' then TrimLeadingDashes(s[1..]) else s
  }

  /** Only dashes go at the front: the letters and digits stay, and so does the shape. */
  lemma {:induction false} TrimLeadingKeeps(s: string)
    ensures Alphanumerics(TrimLeadingDashes(s)) == Alphanumerics(s)
    ensures SlugOrDash(s) ==> SlugOrDash(TrimLeadingDashes(s))
    ensures NoDoubleDash(s) ==> NoDoubleDash(TrimLeadingDashes(s))
  {
    if s != [] && s[0] == '-' {
      TrimLeadingKeeps(s[1..]);
    }
  }

  /** The text without its trailing dashes. */
  function TrimTrailingDashes(s: string): (r: string)
    ensures |r| <= |s| && r == s[..|r|]
    ensures forall i :: |r| <= i < |s| ==> s[i] == '-'
    ensures r == [] || r[|r| - 1] != '-'
  {
    if s != [] && s[|s| - 1] == '-' then TrimTrailingDashes(s[..|s| - 1]) else s
  }

  /** Only dashes go at the back: the letters and digits stay, and so does the shape. */
  lemma {:induction false} TrimTrailingKeeps(s: string)
    ensures Alphanumerics(TrimTrailingDashes(s)) == Alphanumerics(s)
    ensures SlugOrDash(s) ==> SlugOrDash(TrimTrailingDashes(s))
    ensures NoDoubleDash(s) ==> NoDoubleDash(TrimTrailingDashes(s))
  {
    if s != [] && s[|s| - 1] == '-' {
      AlphanumericsDropLast(s);
      if NoDoubleDash(s) {
        NoDoubleDashDropLast(s);
      }
      TrimTrailingKeeps(s[..|s| - 1]);
    }
  }

  /** A trailing dash carries no letter or digit. */
  lemma {:induction false} AlphanumericsDropLast(s: string)
    requires s != [] && s[|s| - 1] == '-'
    ensures Alphanumerics(s[..|s| - 1]) == Alphanumerics(s)
  {
    if |s| > 1 {
      assert s[1..][..|s[1..]| - 1] == s[..|s| - 1][1..];
      AlphanumericsDropLast(s[1..]);
    }
  }

  /** The base reduced to a slug: marks stripped, lower-cased, runs turned into dashes and the
      dashes at both ends removed. The slug holds the letters and digits of the lowered base. */
  function Slug(base: string): (r: string)
    ensures SlugShaped(r)
    ensures Alphanumerics(r) == Alphanumerics(LowerAscii(StripMarks(base)))
  {
    var runs := DashRuns(LowerAscii(StripMarks(base)));
    var lead := TrimLeadingDashes(runs);
    var r := TrimTrailingDashes(lead);
    DashRunsKeepAlphanumerics(LowerAscii(StripMarks(base)));
    TrimLeadingKeeps(runs);
    TrimTrailingKeeps(lead);
    assert r != [] ==> r[0] == lead[0];
    r
  }

  /** The fallback name is a slug. */
  lemma FallbackIsSlug()
    ensures SlugShaped("file")
  {
    assert "file"[1..] == "ile" && "ile"[1..] == "le";
  }

  /** The slug, or "file" when it is empty. */
  function SafeBase(base: string): (r: string)
    ensures r != [] && SlugShaped(r)
    ensures Slug(base) != [] ==> r == Slug(base)
    ensures Slug(base) == [] ==> r == "file"
  {
    var slug := Slug(base);
    if slug == [] then FallbackIsSlug(); "file" else slug
  }

  /** What an extension keeps: an ASCII letter of either case, a digit or a dot. */
  predicate IsExtChar(c: char)
  {
    'a' <= c <= 'z' || 'A' <= c <= 'Z' || '0' <= c <= '9' || c == '.'
  }

  /** The extension with every other character removed. */
  function FilterExt(ext: string): (r: string)
    ensures |r| <= |ext|
    ensures forall i :: 0 <= i < |r| ==> IsExtChar(r[i])
    ensures (forall i :: 0 <= i < |ext| ==> IsExtChar(ext[i])) ==> r == ext
    ensures ext != [] && ext[0] == '.' ==> r != [] && r[0] == '.'
    ensures '.' !in ext[..] ==> '.' !in r
    ensures ext != [] && '.' !in ext[1..] ==> r == [] || '.' !in r[1..]
  {
    if ext == [] then ""
    else
      var rest := FilterExt(ext[1..]);
      assert ext[1..][..] == ext[1..];
      if IsExtChar(ext[0]) then [ext[0]] + rest else rest
  }

  /** A storage key for the name: the safe base followed by the filtered extension. */
  function SanitizeFileName(name: string): (r: string)
    ensures var split := SplitName(name); r == SafeBase(split.base) + FilterExt(split.ext)
    ensures r != [] && IsSlugChar(r[0])
    ensures forall i :: 0 <= i < |r| ==> IsExtChar(r[i]) || r[i] == '-'
  {
    var split := SplitName(name);
    var base := SafeBase(split.base);
    assert IsSlugChar(base[0]);
    SanitizedChars(base, FilterExt(split.ext));
    base + FilterExt(split.ext)
  }

  /** A slug followed by a filtered extension holds only letters, digits, dots and dashes. */
  lemma SanitizedChars(base: string, ext: string)
    requires SlugOrDash(base)
    requires forall i :: 0 <= i < |ext| ==> IsExtChar(ext[i])
    ensures forall i :: 0 <= i < |base + ext| ==> IsExtChar((base + ext)[i]) || (base + ext)[i] == '-'
  {
    forall i | 0 <= i < |base + ext| ensures IsExtChar((base + ext)[i]) || (base + ext)[i] == '-' {
      if i >= |base| {
        assert (base + ext)[i] == ext[i - |base|];
      }
    }
  }

  /** A slug is its own slug. */
  lemma {:induction false} DashRunsOfSlug(s: string)
    requires SlugOrDash(s) && NoDoubleDash(s)
    ensures DashRuns(s) == s
  {
    if s != [] {
      DashRunsOfSlug(s[1..]);
      if !IsSlugChar(s[0]) && |s| > 1 {
        assert IsSlugChar(s[1]);
      }
      assert [s[0]] + s[1..] == s;
    }
  }

  /** A slug is its own slug: no marks to strip, nothing to lower, no runs to merge, no dashes at
      the ends. */
  lemma SlugOfSlug(s: string)
    requires SlugShaped(s)
    ensures Slug(s) == s
  {
    assert StripMarks(s) == s by {
      assert forall i :: 0 <= i < |s| ==> !IsCombiningMark(s[i]);
    }
    LowerSlug(s);
    DashRunsOfSlug(s);
  }

  /** A slug has no upper-case letter to lower. */
  lemma LowerSlug(s: string)
    requires SlugOrDash(s)
    ensures LowerAscii(s) == s
  {
    var l := LowerAscii(s);
    assert forall i :: 0 <= i < |s| ==> l[i] == s[i];
  }

  /** A safe base followed by a filtered extension splits back into the same two parts. */
  lemma SplitOfSanitized(base: string, ext: string)
    requires base != [] && SlugOrDash(base)
    requires ext == [] || (ext[0] == '.' && '.' !in ext[1..])
    ensures SplitName(base + ext) == Split(base, ext)
  {
    var r := base + ext;
    assert '.' !in base by {
      assert forall i :: 0 <= i < |base| ==> base[i] != '.';
    }
    if ext == [] {
      assert r == base;
    } else {
      assert LastDot(r) == |base| by {
        assert forall i :: |base| < i < |r| ==> r[i] == ext[1..][i - |base| - 1];
        LastDotIs(r, |base|);
      }
      assert r[..|base|] == base && r[|base|..] == ext;
    }
  }

  /** Sanitising a name again changes nothing. */
  lemma SanitizeIdempotent(name: string)
    ensures SanitizeFileName(SanitizeFileName(name)) == SanitizeFileName(name)
  {
    var split := SplitName(name);
    var base := SafeBase(split.base);
    var ext := FilterExt(split.ext);
    SplitOfSanitized(base, ext);
    SlugOfSlug(base);
  }

  /** The last dot is where no later dot follows. */
  lemma {:induction false} LastDotIs(s: string, k: nat)
    requires k < |s| && s[k] == '.' && forall i :: k < i < |s| ==> s[i] != '.'
    ensures LastDot(s) == k
  {
    if k < |s| - 1 {
      LastDotIs(s[..|s| - 1], k);
    }
  }
}
