/**
 * BBCode helpers (src/utils/formatBBCode.ts): wrapping a selection in a tag,
 * and turning BBCode into HTML or into plain text by a chain of global
 * regular-expression rewrites.
 *
 * Every rewrite in the chain has the shape `open (.*?) [mid (.*?)] close`
 * with the g flag; Rewrite gives the meaning of one such rule: scanning left
 * to right, at each position try the shortest match (a lazy group may not
 * cross a line terminator unless the rule has the s flag), replace it by the
 * rule's template and go on after it; where nothing matches, copy one
 * character.
 */
module BBCode {
  import opened Options

  // ---------------------------------------------------------------- insertion

  /** The edited text and the cursor position after it. */
  datatype Insertion = Insertion(newContent: string, newPosition: int)

  function OpenTag(tag: string): string { "[" + tag + "]" }

  function CloseTag(tag: string): string { "[/" + tag + "]" }

  function Clamp(x: int, n: nat): nat
  {
    if x < 0 then 0 else if x > n then n else x
  }

  /** JavaScript's String.prototype.substring: both bounds are clamped to the text, and a
      reversed pair is swapped. */
  function Substring(s: string, a: int, b: int): (r: string)
    ensures 0 <= a <= b <= |s| ==> r == s[a..b]
    ensures 0 <= b <= a <= |s| ==> r == s[b..a]
  {
    var x, y := Clamp(a, |s|), Clamp(b, |s|);
    if x <= y then s[x..y] else s[y..x]
  }

  /** Wraps the selection [selectionStart, selectionEnd) in `[tag]` and `[/tag]`; the cursor
      goes just past the closing tag. For a selection inside the text the result is the text
      before the selection, the opening tag, the selection, the closing tag and the text after
      it, and nothing else. */
  function InsertBBCode(content: string, selectionStart: int, selectionEnd: int, tag: string): (r: Insertion)
    ensures 0 <= selectionStart <= selectionEnd <= |content| ==>
      && r.newContent == content[..selectionStart] + OpenTag(tag) + content[selectionStart..selectionEnd] + CloseTag(tag) + content[selectionEnd..]
      && |r.newContent| == |content| + 2 * |tag| + 5
      && r.newPosition == selectionStart + (|tag| + 2) + (selectionEnd - selectionStart) + (|tag| + 3)
      && r.newContent[..selectionStart] == content[..selectionStart]
      && r.newContent[r.newPosition - (|tag| + 3)..r.newPosition] == CloseTag(tag)
      && r.newContent[r.newPosition..] == content[selectionEnd..]
  {
    var selected := Substring(content, selectionStart, selectionEnd);
    var newContent := Substring(content, 0, selectionStart) + OpenTag(tag) + selected + CloseTag(tag)
      + Substring(content, selectionEnd, |content|);
    Insertion(newContent, selectionStart + |OpenTag(tag)| + |selected| + |CloseTag(tag)|)
  }

  /** A selection given backwards is swapped by substring, yet the text before and after is cut at
      the unswapped bounds: the selected text then appears three times. */
  lemma ReversedSelectionRepeatsText(content: string, selectionStart: int, selectionEnd: int, tag: string)
    requires 0 <= selectionEnd <= selectionStart <= |content|
    ensures InsertBBCode(content, selectionStart, selectionEnd, tag).newContent ==
      content[..selectionStart] + OpenTag(tag) + content[selectionEnd..selectionStart] + CloseTag(tag) + content[selectionEnd..]
    ensures |InsertBBCode(content, selectionStart, selectionEnd, tag).newContent| ==
      |content| + 2 * |tag| + 5 + 2 * (selectionStart - selectionEnd)
  {
  }

  // ------------------------------------------------------------ rewrite rules

  /** A piece of a replacement: literal text, or what the first or second group captured. */
  datatype Piece = Lit(text: string) | Group1 | Group2

  /** One global rewrite `open (.*?) [mid (.*?)] close`:
      mid is the literal between the two groups of the two-group tags;
      closes are the alternatives that may end a match;
      with lookahead, the closing alternative is looked at but not consumed;
      with dotAll (the s flag), the groups may span line terminators. */
  datatype Rule = Rule(open: string, mid: Option<string>, closes: seq<string>, lookahead: bool, dotAll: bool, template: seq<Piece>)

  /** What one match captured and where it ends. */
  datatype Match = Match(group1: string, group2: string, end: nat)

  /** The characters that `.` does not match without the s flag. */
  predicate IsLineTerminator(c: char)
  {
    c == '\n' || c == '\r' || c == '\U{2028}' || c == '\U{2029}'
  }

  /** The length of the first alternative that `s` starts with. */
  function CloseAt(s: string, closes: seq<string>): (r: Option<nat>)
    ensures r.Some? ==> r.value <= |s| && s[..r.value] in closes
    ensures r.None? ==> forall i :: 0 <= i < |closes| ==> !(closes[i] <= s)
  {
    if closes == [] then None
    else if closes[0] <= s then
      assert s[..|closes[0]|] == closes[0];
      Some(|closes[0]|)
    else CloseAt(s, closes[1..])
  }

  /** Where a lazy group that starts at `k` ends: the first j >= k at which a closing
      alternative begins, provided no line terminator (unless dotAll) lies in t[k..j];
      with the length of that alternative. None when no closing alternative begins before the
      first line terminator (or, with dotAll, before the end). */
  function LazyGroupEnd(t: string, k: nat, closes: seq<string>, dotAll: bool): (r: Option<(nat, nat)>)
    requires k <= |t|
    ensures r.Some? ==> k <= r.value.0 && r.value.0 + r.value.1 <= |t|
    ensures r.Some? ==> CloseAt(t[r.value.0..], closes) == Some(r.value.1)
    ensures r.Some? && !dotAll ==> forall i :: k <= i < r.value.0 ==> !IsLineTerminator(t[i])
    ensures r.Some? ==> forall i :: k <= i < r.value.0 ==> CloseAt(t[i..], closes).None?
    ensures r.None? ==> forall j :: k <= j <= |t| && (dotAll || OnOneLine(t[k..j])) ==> CloseAt(t[j..], closes).None?
    decreases |t| - k
  {
    match CloseAt(t[k..], closes)
    case Some(n) => Some((k, n))
    case None =>
      if k == |t| || (!dotAll && IsLineTerminator(t[k])) then None
      else LazyGroupEnd(t, k + 1, closes, dotAll)
  }

  /** A one-group match whose group starts at `k`. */
  function MatchOneGroup(t: string, k: nat, closes: seq<string>, lookahead: bool, dotAll: bool): (m: Option<Match>)
    requires k <= |t|
    ensures m.Some? ==> k <= m.value.end <= |t|
  {
    match LazyGroupEnd(t, k, closes, dotAll)
    case None => None
    case Some(e) => Some(Match(t[k..e.0], "", if lookahead then e.0 else e.0 + e.1))
  }

  /** A two-group match whose first group starts at `k` and ends at the first `mid`. */
  function MatchTwoGroups(t: string, k: nat, mid: string, closes: seq<string>, lookahead: bool, dotAll: bool): (m: Option<Match>)
    requires k <= |t|
    ensures m.Some? ==> k <= m.value.end <= |t|
  {
    match LazyGroupEnd(t, k, [mid], dotAll)
    case None => None
    case Some(e1) =>
      match LazyGroupEnd(t, e1.0 + e1.1, closes, dotAll)
      case None => None
      case Some(e2) => Some(Match(t[k..e1.0], t[e1.0 + e1.1..e2.0], if lookahead then e2.0 else e2.0 + e2.1))
  }

  /** The match of `rule` at the very start of `t`, if any. For two groups, the first group is
      the shortest one that reaches `mid`; a longer first group never helps, because the second
      group would then have to find a closing alternative in a part of the same line that the
      shortest choice already searched. */
  function MatchAt(rule: Rule, t: string): (m: Option<Match>)
    ensures m.Some? ==> rule.open <= t && |rule.open| <= m.value.end <= |t|
  {
    if !(rule.open <= t) then None
    else if rule.mid.None? then MatchOneGroup(t, |rule.open|, rule.closes, rule.lookahead, rule.dotAll)
    else MatchTwoGroups(t, |rule.open|, rule.mid.value, rule.closes, rule.lookahead, rule.dotAll)
  }

  /** A template filled in with what the two groups captured. */
  function Expand(template: seq<Piece>, group1: string, group2: string): string
  {
    if template == [] then "" else PieceText(template[0], group1, group2) + Expand(template[1..], group1, group2)
  }

  /** What one piece of a template stands for. */
  function PieceText(p: Piece, group1: string, group2: string): string
  {
    match p
    case Lit(s) => s
    case Group1 => group1
    case Group2 => group2
  }

  /** The global replace of one rule over `t`: a text in which the rule's first character never
      occurs has no match and is returned as it is. */
  function Rewrite(rule: Rule, t: string): (r: string)
    requires rule.open != []
    ensures t == [] ==> r == []
    ensures rule.open[0] !in t ==> r == t
    decreases |t|
  {
    if t == [] then ""
    else match MatchAt(rule, t)
      case Some(m) => Expand(rule.template, m.group1, m.group2) + Rewrite(rule, t[m.end..])
      case None => [t[0]] + Rewrite(rule, t[1..])
  }

  /** Every rule of a chain begins with a literal `[`. */
  predicate BracketRules(rules: seq<Rule>)
  {
    forall i :: 0 <= i < |rules| ==> rules[i].open != [] && rules[i].open[0] == '['
  }

  /** The rules of a chain applied one after another; a text without `[` passes them all. */
  function ApplyRules(rules: seq<Rule>, t: string): (r: string)
    requires BracketRules(rules)
    ensures '[' !in t ==> r == t
  {
    if rules == [] then t else ApplyRules(rules[1..], Rewrite(rules[0], t))
  }

  lemma {:induction false} ApplyRulesAppend(a: seq<Rule>, b: seq<Rule>, t: string)
    requires BracketRules(a) && BracketRules(b)
    ensures BracketRules(a + b)
    ensures ApplyRules(a + b, t) == ApplyRules(b, ApplyRules(a, t))
  {
    if a != [] {
      assert (a + b)[1..] == a[1..] + b;
      ApplyRulesAppend(a[1..], b, Rewrite(a[0], t));
    } else {
      assert a + b == b;
    }
  }

  /** A rule that begins with `[` copies a stretch of text without `[`. */
  lemma {:induction false} RewriteCopiesPlain(rule: Rule, a: string, rest: string)
    requires rule.open != [] && rule.open[0] == '['
    requires '[' !in a
    ensures Rewrite(rule, a + rest) == a + Rewrite(rule, rest)
  {
    if a != [] {
      var t := a + rest;
      assert Rewrite(rule, t) == [a[0]] + Rewrite(rule, a[1..] + rest) by {
        assert t[0] == a[0] != rule.open[0];
        assert t[1..] == a[1..] + rest;
      }
      RewriteCopiesPlain(rule, a[1..], rest);
      ConsAppend(a, Rewrite(rule, rest));
    } else {
      assert a + rest == rest;
    }
  }


  /** The first character of a non-empty text and the rest of it, followed by `b`. */
  lemma ConsAppend(a: string, b: string)
    requires a != []
    ensures [a[0]] + (a[1..] + b) == a + b
  {
    assert [a[0]] + a[1..] == a;
  }

  /** A rule that begins with `[` leaves a text without `[` as it is. */
  lemma RewriteWithoutBracket(rule: Rule, t: string)
    requires rule.open != [] && rule.open[0] == '['
    requires '[' !in t
    ensures Rewrite(rule, t) == t
  {
    RewriteCopiesPlain(rule, t, "");
    assert t + "" == t;
  }

  /** A chain of such rules leaves a text without `[` as it is. */
  lemma {:induction false} ApplyRulesWithoutBracket(rules: seq<Rule>, t: string)
    requires BracketRules(rules)
    requires '[' !in t
    ensures ApplyRules(rules, t) == t
  {
    if rules != [] {
      RewriteWithoutBracket(rules[0], t);
      ApplyRulesWithoutBracket(rules[1..], t);
    }
  }

  // ------------------------------------------- rewriting a text piece by piece

  /** `open` cannot match at the start of `piece`: they differ in the second or third character. */
  predicate Misses(open: string, piece: string)
  {
    |open| >= 3 && |piece| >= 3 && (open[1] != piece[1] || open[2] != piece[2])
  }

  /** A rule beginning with `[` copies a piece that starts with a `[` it cannot match and holds
      no other `[`. */
  lemma RewriteCopiesPiece(rule: Rule, piece: string, rest: string)
    requires rule.open != [] && rule.open[0] == '['
    requires Misses(rule.open, piece) && '[' !in piece[1..]
    ensures Rewrite(rule, piece + rest) == piece + Rewrite(rule, rest)
  {
    var t := piece + rest;
    assert Rewrite(rule, t) == [piece[0]] + Rewrite(rule, piece[1..] + rest) by {
      assert t[1] == piece[1] && t[2] == piece[2];
      assert t[1..] == piece[1..] + rest;
    }
    RewriteCopiesPlain(rule, piece[1..], rest);
    ConsAppend(piece, Rewrite(rule, rest));
  }

  function Join(pieces: seq<string>): string
  {
    if pieces == [] then "" else pieces[0] + Join(pieces[1..])
  }

  /** A piece that a rule copies unchanged. */
  predicate Skipped(open: string, piece: string)
  {
    '[' !in piece || (Misses(open, piece) && '[' !in piece[1..])
  }

  lemma {:induction false} RewriteKeepsPieces(rule: Rule, pieces: seq<string>)
    requires rule.open != [] && rule.open[0] == '['
    requires forall j :: 0 <= j < |pieces| ==> Skipped(rule.open, pieces[j])
    ensures Rewrite(rule, Join(pieces)) == Join(pieces)
  {
    if pieces == [] {
      assert Join(pieces) == "";
    } else {
      RewriteKeepsPieces(rule, pieces[1..]);
      if '[' !in pieces[0] {
        RewriteCopiesPlain(rule, pieces[0], Join(pieces[1..]));
      } else {
        RewriteCopiesPiece(rule, pieces[0], Join(pieces[1..]));
      }
    }
  }

  lemma {:induction false} ApplyRulesKeepsPieces(rules: seq<Rule>, pieces: seq<string>)
    requires BracketRules(rules)
    requires forall i, j :: 0 <= i < |rules| && 0 <= j < |pieces| ==> Skipped(rules[i].open, pieces[j])
    ensures ApplyRules(rules, Join(pieces)) == Join(pieces)
  {
    if rules != [] {
      RewriteKeepsPieces(rules[0], pieces);
      ApplyRulesKeepsPieces(rules[1..], pieces);
    }
  }

  /** Every closing alternative starts with `[` and has a second character. */
  predicate BracketCloses(closes: seq<string>)
  {
    forall i :: 0 <= i < |closes| ==> |closes[i]| >= 2 && closes[i][0] == '['
  }

  /** No closing alternative begins where there is no `[` followed by its second character. */
  lemma {:induction false} CloseAtNone(s: string, closes: seq<string>)
    requires BracketCloses(closes)
    requires s == [] || s[0] != '[' || (|s| >= 2 && forall i :: 0 <= i < |closes| ==> closes[i][1] != s[1])
    ensures CloseAt(s, closes).None?
  {
    if closes != [] {
      assert !(closes[0] <= s) by {
        if s != [] && s[0] == '[' { assert closes[0][1] != s[1]; }
      }
      CloseAtNone(s, closes[1..]);
    }
  }

  /** A lazy group moves over a stretch where no closing alternative begins and `.` matches. */
  lemma {:induction false} LazyScan(t: string, k: nat, j: nat, closes: seq<string>, dotAll: bool)
    requires k <= j <= |t|
    requires forall i :: k <= i < j ==> CloseAt(t[i..], closes).None? && (!dotAll ==> !IsLineTerminator(t[i]))
    ensures LazyGroupEnd(t, k, closes, dotAll) == LazyGroupEnd(t, j, closes, dotAll)
    decreases j - k
  {
    if k < j {
      LazyScan(t, k + 1, j, closes, dotAll);
    }
  }

  /** A body in which no closing alternative can begin: each of its `[` is followed, inside the
      body, by a character no alternative has second. */
  predicate NoCloseIn(body: string, closes: seq<string>)
  {
    forall i :: 0 <= i < |body| && body[i] == '[' ==>
      i + 1 < |body| && forall a :: 0 <= a < |closes| && |closes[a]| >= 2 ==> closes[a][1] != body[i + 1]
  }

  predicate OnOneLine(s: string)
  {
    forall i :: 0 <= i < |s| ==> !IsLineTerminator(s[i])
  }

  /** No closing alternative begins at position `i` of a body in which none can begin. */
  lemma NoCloseAtBodyPosition(t: string, k: nat, body: string, closes: seq<string>, i: nat)
    requires BracketCloses(closes) && NoCloseIn(body, closes)
    requires k <= i < k + |body| <= |t| && t[k..k + |body|] == body
    ensures CloseAt(t[i..], closes).None?
  {
    var s := t[i..];
    assert s[0] == body[i - k];
    if s[0] == '[' {
      assert s[1] == body[i + 1 - k];
    }
    CloseAtNone(s, closes);
  }

  /** Where a lazy group over `body` ends when `rest` starts with a closing alternative. */
  lemma LazyGroupOverBody(t: string, k: nat, body: string, rest: string, closes: seq<string>, dotAll: bool)
    requires BracketCloses(closes) && NoCloseIn(body, closes) && (!dotAll ==> OnOneLine(body))
    requires k + |body| <= |t| && t[k..k + |body|] == body && t[k + |body|..] == rest
    requires CloseAt(rest, closes).Some?
    ensures LazyGroupEnd(t, k, closes, dotAll) == Some((k + |body|, CloseAt(rest, closes).value))
  {
    var j := k + |body|;
    assert LazyGroupEnd(t, k, closes, dotAll) == LazyGroupEnd(t, j, closes, dotAll) by {
      forall i | k <= i < j
        ensures CloseAt(t[i..], closes).None? && (!dotAll ==> !IsLineTerminator(t[i]))
      {
        NoCloseAtBodyPosition(t, k, body, closes, i);
        assert t[i] == t[k..k + |body|][i - k] == body[i - k];
      }
      LazyScan(t, k, j, closes, dotAll);
    }
    assert t[j..] == rest;
  }

  /** A one-group rule matches its opening, the body and the first closing alternative. */
  lemma MatchTagAt(rule: Rule, body: string, rest: string)
    requires rule.open != [] && rule.mid.None? && BracketCloses(rule.closes)
    requires NoCloseIn(body, rule.closes) && (!rule.dotAll ==> OnOneLine(body))
    requires CloseAt(rest, rule.closes).Some?
    ensures MatchAt(rule, rule.open + body + rest) ==
      Some(Match(body, "", |rule.open| + |body| + (if rule.lookahead then 0 else CloseAt(rest, rule.closes).value)))
  {
    var t := rule.open + body + rest;
    var k := |rule.open|;
    var c := CloseAt(rest, rule.closes).value;
    assert rule.open <= t by {
      assert t[..k] == rule.open;
    }
    assert LazyGroupEnd(t, k, rule.closes, rule.dotAll) == Some((k + |body|, c)) by {
      assert t[k..k + |body|] == body;
      assert t[k + |body|..] == rest;
      LazyGroupOverBody(t, k, body, rest, rule.closes, rule.dotAll);
    }
    assert t[k..k + |body|] == body;
    OneGroupAt(t, k, k + |body|, c, rule.closes, rule.lookahead, rule.dotAll);
  }

  lemma OneGroupAt(t: string, k: nat, e: nat, c: nat, closes: seq<string>, lookahead: bool, dotAll: bool)
    requires k <= e <= |t|
    requires LazyGroupEnd(t, k, closes, dotAll) == Some((e, c))
    ensures MatchOneGroup(t, k, closes, lookahead, dotAll) == Some(Match(t[k..e], "", e + if lookahead then 0 else c))
  {
  }

  /** A one-group rule replaces its opening, the body and the first closing alternative. */
  lemma RewriteTagAt(rule: Rule, body: string, rest: string)
    requires rule.open != [] && rule.mid.None? && BracketCloses(rule.closes)
    requires NoCloseIn(body, rule.closes) && (!rule.dotAll ==> OnOneLine(body))
    requires CloseAt(rest, rule.closes).Some?
    ensures Rewrite(rule, rule.open + body + rest) ==
      Expand(rule.template, body, "") +
      Rewrite(rule, if rule.lookahead then rest else rest[CloseAt(rest, rule.closes).value..])
  {
    var t := rule.open + body + rest;
    var n := if rule.lookahead then 0 else CloseAt(rest, rule.closes).value;
    var after := if rule.lookahead then rest else rest[CloseAt(rest, rule.closes).value..];
    var m := Match(body, "", |rule.open| + |body| + n);
    assert t[m.end..] == after by {
      assert t[|rule.open| + |body|..] == rest;
      assert rest[0..] == rest;
    }
    assert Rewrite(rule, t) == Expand(rule.template, body, "") + Rewrite(rule, t[m.end..]) by {
      MatchTagAt(rule, body, rest);
      RewriteAtMatch(rule, t, m);
    }
  }

  /** One step of the global replace where the rule matches. */
  lemma RewriteAtMatch(rule: Rule, t: string, m: Match)
    requires rule.open != [] && MatchAt(rule, t) == Some(m)
    ensures m.end <= |t|
    ensures Rewrite(rule, t) == Expand(rule.template, m.group1, m.group2) + Rewrite(rule, t[m.end..])
  {
  }

  /** A one-group rule whose closing alternative never comes does not match at its opening. */
  lemma RewriteOpenWithoutClose(rule: Rule, tail: string)
    requires rule.open != [] && rule.open[0] == '[' && '[' !in rule.open[1..]
    requires rule.mid.None? && BracketCloses(rule.closes)
    requires '[' !in tail && (!rule.dotAll ==> OnOneLine(tail))
    ensures Rewrite(rule, rule.open + tail) == rule.open + tail
  {
    var t := rule.open + tail;
    var k := |rule.open|;
    assert MatchAt(rule, t).None? by {
      assert t[..k] == rule.open;
      forall i | k <= i < |t|
        ensures CloseAt(t[i..], rule.closes).None? && (!rule.dotAll ==> !IsLineTerminator(t[i]))
      {
        assert t[i] == tail[i - k];
        CloseAtNone(t[i..], rule.closes);
      }
      LazyScan(t, k, |t|, rule.closes, rule.dotAll);
      assert t[|t|..] == [];
    }
    assert Rewrite(rule, t[1..]) == t[1..] by {
      assert t[1..] == rule.open[1..] + tail;
      RewriteWithoutBracket(rule, t[1..]);
    }
    assert [t[0]] + t[1..] == t;
  }

  // ------------------------------------------------------------ the two chains

  /** `[name](.*?)[/name]`, one line. */
  function SimpleTag(name: string, template: seq<Piece>): Rule
  {
    Rule("[" + name + "]", None, ["[/" + name + "]"], false, false, template)
  }

  /** `[name=(.*?)](.*?)[/name]`, one line. */
  function ParamTag(name: string, template: seq<Piece>): Rule
  {
    Rule("[" + name + "=", Some("]"), ["[/" + name + "]"], false, false, template)
  }

  /** `open(.*?)[/list]` with the s flag: a list may span lines. */
  function ListTag(open: string, template: seq<Piece>): Rule
  {
    Rule(open, None, ["[/list]"], false, true, template)
  }

  /** `[*](.*?)` up to, but not taking, the next `[*]` or `[/list]`; one line. */
  function ItemRule(template: seq<Piece>): Rule
  {
    Rule("[*]", None, ["[*]", "[/list]"], true, false, template)
  }

  function Wrap(before: string, after: string): seq<Piece>
  {
    [Lit(before), Group1, Lit(after)]
  }

  const LinkAttributes := "\" target=\"_blank\" rel=\"noopener noreferrer\" class=\"text-primary underline\">"
  const UlOpen := "<ul class=\"list-disc pl-6\">"
  const OlOpen := "<ol class=\"list-decimal pl-6\">"

  /** The HTML rules for the inline and block tags, in the order they are applied. */
  const InlineHtmlRules: seq<Rule> := [
    SimpleTag("b", Wrap("<strong>", "</strong>")),
    SimpleTag("i", Wrap("<em>", "</em>")),
    SimpleTag("u", Wrap("<u>", "</u>")),
    SimpleTag("s", Wrap("<s>", "</s>")),
    ParamTag("url", [Lit("<a href=\""), Group1, Lit(LinkAttributes), Group2, Lit("</a>")]),
    SimpleTag("url", [Lit("<a href=\""), Group1, Lit(LinkAttributes), Group1, Lit("</a>")]),
    ParamTag("color", [Lit("<span style=\"color: "), Group1, Lit("\">"), Group2, Lit("</span>")]),
    ParamTag("size", [Lit("<span style=\"font-size: "), Group1, Lit("\">"), Group2, Lit("</span>")]),
    SimpleTag("center", Wrap("<div style=\"text-align: center\">", "</div>")),
    SimpleTag("right", Wrap("<div style=\"text-align: right\">", "</div>")),
    SimpleTag("left", Wrap("<div style=\"text-align: left\">", "</div>")),
    SimpleTag("quote", Wrap("<blockquote class=\"border-l-4 border-primary/20 pl-4 italic text-muted-foreground\">", "</blockquote>")),
    SimpleTag("code", Wrap("<code class=\"bg-muted px-2 py-1 rounded text-sm font-mono\">", "</code>"))
  ]

  const UnorderedListHtml := ListTag("[list]", Wrap(UlOpen, "</ul>"))
  const OrderedListHtml := ListTag("[list=1]", Wrap(OlOpen, "</ol>"))
  const ItemHtml := ItemRule(Wrap("<li>", "</li>"))


  /** The plain-text rules for the inline and block tags: each keeps what its tag wraps. */
  const InlinePlainRules: seq<Rule> := [
    SimpleTag("b", [Group1]),
    SimpleTag("i", [Group1]),
    SimpleTag("u", [Group1]),
    SimpleTag("s", [Group1]),
    ParamTag("url", [Group2]),
    SimpleTag("url", [Group1]),
    ParamTag("color", [Group2]),
    ParamTag("size", [Group2]),
    SimpleTag("center", [Group1]),
    SimpleTag("right", [Group1]),
    SimpleTag("left", [Group1]),
    SimpleTag("quote", [Group1]),
    SimpleTag("code", [Group1])
  ]

  const UnorderedListPlain := ListTag("[list]", [Group1])
  const OrderedListPlain := ListTag("[list=1]", [Group1])

  /** The bullet as the source spells it: the UTF-8 bytes of U+2022 read back as Windows-1252. */
  const GarbledBullet := "\U{00E2}\U{20AC}\U{00A2} "
  const Bullet := "\U{2022} "

  const ItemPlainAsWritten := ItemRule([Lit(GarbledBullet), Group1, Lit("\n")])
  const ItemPlain := ItemRule([Lit(Bullet), Group1, Lit("\n")])

  /** The list rules as the source orders them: lists, numbered lists, then items. Rules that
      begin with `[` leave a text without `[` as it is. */
  function ListsThenItems(list: Rule, numbered: Rule, item: Rule, t: string): (r: string)
    requires list.open != [] && numbered.open != [] && item.open != []
    ensures list.open[0] == '[' && numbered.open[0] == '[' && item.open[0] == '[' && '[' !in t ==> r == t
  {
    Rewrite(item, Rewrite(numbered, Rewrite(list, t)))
  }

  /** The list rules with the items converted while their `[/list]` is still there. Rules that
      begin with `[` leave a text without `[` as it is. */
  function ItemsThenLists(item: Rule, list: Rule, numbered: Rule, t: string): (r: string)
    requires list.open != [] && numbered.open != [] && item.open != []
    ensures list.open[0] == '[' && numbered.open[0] == '[' && item.open[0] == '[' && '[' !in t ==> r == t
  {
    Rewrite(numbered, Rewrite(list, Rewrite(item, t)))
  }

  /** Rules that begin with `[` leave a text without `[` as it is, in either order. */
  lemma ListRulesWithoutBracket(list: Rule, numbered: Rule, item: Rule, t: string)
    requires list.open != [] && numbered.open != [] && item.open != []
    requires list.open[0] == '[' && numbered.open[0] == '[' && item.open[0] == '['
    requires '[' !in t
    ensures ListsThenItems(list, numbered, item, t) == t
    ensures ItemsThenLists(item, list, numbered, t) == t
  {
    RewriteWithoutBracket(list, t);
    RewriteWithoutBracket(numbered, t);
    RewriteWithoutBracket(item, t);
  }

  // ------------------------------------------------------- newlines and trim

  /** Every line feed replaced by `<br>`. */
  function NewlinesToBreaks(t: string): (r: string)
    ensures '\n' !in r
    ensures '\n' !in t ==> r == t
    ensures |r| >= |t|
  {
    if t == [] then ""
    else (if t[0] == '\n' then "<br>" else [t[0]]) + NewlinesToBreaks(t[1..])
  }

  predicate NoDoubleNewline(t: string)
  {
    forall i :: 0 <= i < |t| - 1 ==> !(t[i] == '\n' && t[i + 1] == '\n')
  }

  /** Every run of line feeds replaced by a single one. */
  function CollapseNewlines(t: string): (r: string)
    ensures NoDoubleNewline(r)
    ensures |r| <= |t|
    ensures r != [] ==> r[0] == t[0]
    ensures NoDoubleNewline(t) ==> r == t
  {
    if t == [] then ""
    else if t[0] == '\n' && |t| >= 2 && t[1] == '\n' then CollapseNewlines(t[1..])
    else [t[0]] + CollapseNewlines(t[1..])
  }

  /** What JavaScript's trim removes: white space and line terminators. */
  predicate IsJsWhitespace(c: char)
  {
    c == '\t' || c == '\U{000B}' || c == '\U{000C}' || c == ' ' || c == '\U{00A0}' || c == '\U{FEFF}'
    || c == '\U{1680}' || ('\U{2000}' <= c <= '\U{200A}') || c == '\U{202F}' || c == '\U{205F}' || c == '\U{3000}'
    || IsLineTerminator(c)
  }

  predicate Trimmed(t: string)
  {
    t == [] || (!IsJsWhitespace(t[0]) && !IsJsWhitespace(t[|t| - 1]))
  }

  /** How many whitespace characters `t` starts with. */
  function LeadingSpace(t: string): (n: nat)
    ensures n <= |t|
    ensures forall i :: 0 <= i < n ==> IsJsWhitespace(t[i])
    ensures n < |t| ==> !IsJsWhitespace(t[n])
  {
    if t != [] && IsJsWhitespace(t[0]) then 1 + LeadingSpace(t[1..]) else 0
  }

  /** How many whitespace characters `t` ends with. */
  function TrailingSpace(t: string): (n: nat)
    ensures n <= |t|
    ensures forall i :: |t| - n <= i < |t| ==> IsJsWhitespace(t[i])
    ensures n < |t| ==> !IsJsWhitespace(t[|t| - n - 1])
  {
    if t != [] && IsJsWhitespace(t[|t| - 1]) then 1 + TrailingSpace(t[..|t| - 1]) else 0
  }

  /** JavaScript's trim: the longest slice without whitespace at either end. */
  function TrimJs(t: string): (r: string)
    ensures Trimmed(r)
    ensures Trimmed(t) ==> r == t
    ensures NoDoubleNewline(t) ==> NoDoubleNewline(r)
    ensures r == [] ==> forall i :: 0 <= i < |t| ==> IsJsWhitespace(t[i])
  {
    var a := LeadingSpace(t);
    var u := t[a..];
    var b := |u| - TrailingSpace(u);
    assert Trimmed(u[..b]) by {
      if b > 0 {
        assert u[..b][0] == u[0] == t[a];
        assert u[..b][b - 1] == u[|u| - TrailingSpace(u) - 1];
      }
    }
    assert Trimmed(t) ==> u[..b] == t by {
      if Trimmed(t) && t != [] {
        assert a == 0 && u == t;
      }
    }
    assert NoDoubleNewline(t) ==> NoDoubleNewline(u[..b]) by {
      if NoDoubleNewline(t) {
        forall i | 0 <= i < b - 1
          ensures !(u[..b][i] == '\n' && u[..b][i + 1] == '\n')
        {
          assert u[..b][i] == t[a + i] && u[..b][i + 1] == t[a + i + 1];
        }
      }
    }
    assert u[..b] == [] ==> forall i :: 0 <= i < |t| ==> IsJsWhitespace(t[i]) by {
      if b == 0 {
        assert a == |t|;
      }
    }
    u[..b]
  }

  // ---------------------------------------------------------- the conversions

  /** The inline rules of both chains begin with `[`. */
  lemma InlineRulesBracketed()
    ensures BracketRules(InlineHtmlRules) && BracketRules(InlinePlainRules)
  {
  }

  /** BBCode to HTML as the source writes it: the inline rules, then the list rules, the
      numbered-list rule and the item rule, then every line feed made a `<br>`. */
  function BBCodeToHtml(text: string): (r: string)
    ensures text == [] ==> r == []
    ensures '\n' !in r
    ensures '[' !in text ==> r == NewlinesToBreaks(text)
    ensures '[' !in text && '\n' !in text ==> r == text
  {
    InlineRulesBracketed();
    if text == [] then text
    else
      var inline := ApplyRules(InlineHtmlRules, text);
      assert '[' !in text ==> ListsThenItems(UnorderedListHtml, OrderedListHtml, ItemHtml, inline) == text by {
        if '[' !in text {
          ApplyRulesWithoutBracket(InlineHtmlRules, text);
          ListRulesWithoutBracket(UnorderedListHtml, OrderedListHtml, ItemHtml, text);
        }
      }
      NewlinesToBreaks(ListsThenItems(UnorderedListHtml, OrderedListHtml, ItemHtml, inline))
  }

  /** BBCode to HTML with the items converted before the lists: every tag, list and item
      converted, and each line feed made a `<br>`. */
  function BBCodeToHtmlCorrected(text: string): (r: string)
    ensures text == [] ==> r == []
    ensures '\n' !in r
    ensures '[' !in text ==> r == NewlinesToBreaks(text)
    ensures '[' !in text && '\n' !in text ==> r == text
  {
    InlineRulesBracketed();
    if text == [] then text
    else
      var inline := ApplyRules(InlineHtmlRules, text);
      assert '[' !in text ==> ItemsThenLists(ItemHtml, UnorderedListHtml, OrderedListHtml, inline) == text by {
        if '[' !in text {
          ApplyRulesWithoutBracket(InlineHtmlRules, text);
          ListRulesWithoutBracket(UnorderedListHtml, OrderedListHtml, ItemHtml, text);
        }
      }
      NewlinesToBreaks(ItemsThenLists(ItemHtml, UnorderedListHtml, OrderedListHtml, inline))
  }

  /** The older name of the HTML conversion, which the share page renders: the source's chain,
      list order included. */
  function FormatBBCode(text: string): (r: string)
    ensures text == [] ==> r == []
    ensures '\n' !in r
    ensures '[' !in text ==> r == NewlinesToBreaks(text)
  {
    BBCodeToHtml(text)
  }

  /** BBCode to plain text as the source writes it: the inline rules, the list rules, the item
      rule with the source's bullet, then runs of line feeds collapsed and the ends trimmed. */
  function BBCodeToPlainText(text: string): (r: string)
    ensures text == [] ==> r == []
    ensures Trimmed(r) && NoDoubleNewline(r)
    ensures '[' !in text ==> r == TrimJs(CollapseNewlines(text))
  {
    InlineRulesBracketed();
    if text == [] then text
    else
      var inline := ApplyRules(InlinePlainRules, text);
      assert '[' !in text ==> ListsThenItems(UnorderedListPlain, OrderedListPlain, ItemPlainAsWritten, inline) == text by {
        if '[' !in text {
          ApplyRulesWithoutBracket(InlinePlainRules, text);
          ListRulesWithoutBracket(UnorderedListPlain, OrderedListPlain, ItemPlainAsWritten, text);
        }
      }
      TrimJs(CollapseNewlines(ListsThenItems(UnorderedListPlain, OrderedListPlain, ItemPlainAsWritten, inline)))
  }

  /** BBCode to plain text with the items converted before the lists and a real bullet: tags
      dropped, list items bulleted, runs of line feeds collapsed and the ends trimmed. */
  function BBCodeToPlainTextCorrected(text: string): (r: string)
    ensures text == [] ==> r == []
    ensures Trimmed(r) && NoDoubleNewline(r)
    ensures '[' !in text ==> r == TrimJs(CollapseNewlines(text))
  {
    InlineRulesBracketed();
    if text == [] then text
    else
      var inline := ApplyRules(InlinePlainRules, text);
      assert '[' !in text ==> ItemsThenLists(ItemPlain, UnorderedListPlain, OrderedListPlain, inline) == text by {
        if '[' !in text {
          ApplyRulesWithoutBracket(InlinePlainRules, text);
          ListRulesWithoutBracket(UnorderedListPlain, OrderedListPlain, ItemPlain, text);
        }
      }
      TrimJs(CollapseNewlines(ItemsThenLists(ItemPlain, UnorderedListPlain, OrderedListPlain, inline)))
  }

  // ------------------------------------------------------------ list items

  /** An opening that differs from `[*]`, `[/` and `[li` within its first three characters. */
  predicate ClearOfLists(open: string)
  {
    |open| >= 3 && open[0] == '[' && open[1] != '*' && open[1] != '/' && (open[1] != 'l' || open[2] != 'i')
  }

  lemma InlineOpensClearOfLists()
    ensures forall i :: 0 <= i < |InlineHtmlRules| ==> ClearOfLists(InlineHtmlRules[i].open)
    ensures forall i :: 0 <= i < |InlinePlainRules| ==> ClearOfLists(InlinePlainRules[i].open)
  {
  }

  /** Rules whose openings are clear of lists keep a text of list markers and plain items. */
  lemma {:induction false} ClearRulesKeepPieces(rules: seq<Rule>, pieces: seq<string>)
    requires forall i :: 0 <= i < |rules| ==> ClearOfLists(rules[i].open)
    requires forall j :: 0 <= j < |pieces| ==> pieces[j] in ["[list]", "[*]", "[/list]"] || '[' !in pieces[j]
    ensures BracketRules(rules)
    ensures ApplyRules(rules, Join(pieces)) == Join(pieces)
  {
    forall i, j | 0 <= i < |rules| && 0 <= j < |pieces|
      ensures Skipped(rules[i].open, pieces[j])
    {
      var o := rules[i].open;
      assert ClearOfLists(o);
    }
    ApplyRulesKeepsPieces(rules, pieces);
  }

  /** None of the inline rules touches a list opening, an item marker, a list closing or a
      text without `[`. */
  lemma InlineRulesKeepList(rules: seq<Rule>, x: string)
    requires rules == InlineHtmlRules || rules == InlinePlainRules
    requires '[' !in x
    ensures BracketRules(rules)
    ensures ApplyRules(rules, "[list][*]" + x + "[/list]") == "[list][*]" + x + "[/list]"
    ensures ApplyRules(rules, "[*]" + x + "[/list]") == "[*]" + x + "[/list]"
  {
    InlineOpensClearOfLists();
    ItemPieces(x);
    ClearRulesKeepPieces(rules, ["[*]", x, "[/list]"]);
    ClearRulesKeepPieces(rules, ["[list]", "[*]", x, "[/list]"]);
  }

  /** The list and the stray item as pieces. */
  lemma ItemPieces(x: string)
    ensures Join(["[*]", x, "[/list]"]) == "[*]" + x + "[/list]"
    ensures Join(["[list]", "[*]", x, "[/list]"]) == "[list][*]" + x + "[/list]"
  {
    var pieces2 := ["[*]", x, "[/list]"];
    assert Join(pieces2) == "[*]" + x + "[/list]" by {
      assert pieces2[1..] == [x, "[/list]"];
      assert pieces2[1..][1..] == ["[/list]"];
      assert Join(["[/list]"]) == "[/list]";
    }
    var pieces := ["[list]"] + pieces2;
    assert pieces[1..] == pieces2;
    assert pieces == ["[list]", "[*]", x, "[/list]"];
  }

  /** A text without `[` at the end of a rewrite is copied. */
  lemma RewriteTail(rule: Rule, a: string)
    requires rule.open != [] && rule.open[0] == '['
    requires Misses(rule.open, a) && '[' !in a[1..]
    ensures Rewrite(rule, a) == a
  {
    RewriteCopiesPiece(rule, a, "");
    assert a + "" == a;
  }

  /** Trim drops the line feed after a trimmed, non-empty text. */
  lemma TrimDropsFinalNewline(t: string)
    requires t != [] && Trimmed(t)
    ensures TrimJs(t + "\n") == t
  {
    var u := t + "\n";
    assert u[..|u| - 1] == t;
    assert TrailingSpace(u) == 1;
    assert LeadingSpace(u) == 0;
    assert u[0..][..|u| - 1] == t;
  }

  /** The conversions of the list `[list][*]x[/list]` and of the stray item `[*]x[/list]`, each
      down to its three list rules. */
  lemma HtmlOnListText(x: string)
    requires '[' !in x
    ensures var t := "[list][*]" + x + "[/list]";
      BBCodeToHtml(t) == NewlinesToBreaks(Rewrite(ItemHtml, Rewrite(OrderedListHtml, Rewrite(UnorderedListHtml, t))))
  {
    InlineRulesKeepList(InlineHtmlRules, x);
  }

  lemma CorrectedHtmlOnListText(x: string)
    requires '[' !in x
    ensures var t := "[list][*]" + x + "[/list]";
      BBCodeToHtmlCorrected(t) == NewlinesToBreaks(Rewrite(OrderedListHtml, Rewrite(UnorderedListHtml, Rewrite(ItemHtml, t))))
  {
    InlineRulesKeepList(InlineHtmlRules, x);
  }

  lemma PlainOnListText(x: string, t: string)
    requires '[' !in x && (t == "[list][*]" + x + "[/list]" || t == "[*]" + x + "[/list]")
    ensures BBCodeToPlainText(t) ==
      TrimJs(CollapseNewlines(Rewrite(ItemPlainAsWritten, Rewrite(OrderedListPlain, Rewrite(UnorderedListPlain, t)))))
  {
    InlineRulesKeepList(InlinePlainRules, x);
  }

  lemma CorrectedPlainOnListText(x: string, t: string)
    requires '[' !in x && (t == "[list][*]" + x + "[/list]" || t == "[*]" + x + "[/list]")
    ensures BBCodeToPlainTextCorrected(t) == TrimJs(CollapseNewlines(Rewrite(OrderedListPlain, Rewrite(UnorderedListPlain, Rewrite(ItemPlain, t)))))
  {
    InlineRulesKeepList(InlinePlainRules, x);
  }

  /** A list rule takes `[list]`, the body and `[/list]` into its template. */
  lemma ListRuleStep(rule: Rule, body: string)
    requires rule.open == "[list]" && rule.mid.None? && rule.closes == ["[/list]"] && !rule.lookahead && rule.dotAll
    requires NoCloseIn(body, rule.closes)
    ensures Rewrite(rule, "[list]" + body + "[/list]") == Expand(rule.template, body, "")
  {
    assert BracketCloses(rule.closes);
    assert CloseAt("[/list]", rule.closes) == Some(7);
    RewriteTagAt(rule, body, "[/list]");
    assert "[/list]"[7..] == [];
    assert Expand(rule.template, body, "") + "" == Expand(rule.template, body, "");
  }

  /** An item rule turns `[*]x` before `[/list]` into its template, leaving `[/list]` in place. */
  lemma ItemRuleStep(rule: Rule, x: string)
    requires rule.open == "[*]" && rule.mid.None? && rule.closes == ["[*]", "[/list]"] && rule.lookahead && !rule.dotAll
    requires '[' !in x && OnOneLine(x)
    ensures Rewrite(rule, "[*]" + x + "[/list]") == Expand(rule.template, x, "") + "[/list]"
  {
    assert BracketCloses(rule.closes);
    assert !("[*]" <= "[/list]") by { assert "[/list]"[1] == '/'; }
    assert rule.closes[1..] == ["[/list]"];
    assert CloseAt("[/list]", rule.closes) == Some(7);
    RewriteTagAt(rule, x, "[/list]");
    RewriteTail(rule, "[/list]");
  }

  /** The HTML list rule on a one-item list. */
  lemma UnorderedListHtmlStep(body: string)
    requires NoCloseIn(body, ["[/list]"])
    ensures Rewrite(UnorderedListHtml, "[list]" + body + "[/list]") == UlOpen + body + "</ul>"
  {
    ListRuleStep(UnorderedListHtml, body);
    ExpandThree(Lit(UlOpen), Group1, Lit("</ul>"), body, "");
  }

  lemma UnorderedListPlainStep(body: string)
    requires NoCloseIn(body, ["[/list]"])
    ensures Rewrite(UnorderedListPlain, "[list]" + body + "[/list]") == body
  {
    ListRuleStep(UnorderedListPlain, body);
    assert [Group1][1..] == [];
    assert Expand([Group1], body, "") == body + "";
  }

  lemma ExpandThree(p: Piece, q: Piece, r: Piece, group1: string, group2: string)
    ensures Expand([p, q, r], group1, group2) ==
      PieceText(p, group1, group2) + PieceText(q, group1, group2) + PieceText(r, group1, group2)
  {
    var ps := [p, q, r];
    assert ps[1..] == [q, r] && ps[1..][1..] == [r] && ps[1..][1..][1..] == [];
    assert Expand([r], group1, group2) == PieceText(r, group1, group2) + "";
  }

  /** `[*]` then a text without `[`: no rule with a different second character touches it. */
  lemma KeepsItem(rule: Rule, x: string, after: string)
    requires rule.open != [] && rule.open[0] == '[' && |rule.open| >= 3 && rule.open[1] != '*'
    requires '[' !in x
    requires Misses(rule.open, after) && '[' !in after[1..]
    ensures Rewrite(rule, "[*]" + x + after) == "[*]" + x + after
  {
    assert "[*]" + x + after == "[*]" + (x + after);
    assert Rewrite(rule, x + after) == x + after by {
      RewriteTail(rule, after);
      RewriteCopiesPlain(rule, x, after);
    }
    assert Misses(rule.open, "[*]");
    RewriteCopiesPiece(rule, "[*]", x + after);
  }

  /** A body without `[` holds no closing alternative. */
  lemma NoBracketNoClose(body: string, closes: seq<string>)
    requires '[' !in body
    ensures NoCloseIn(body, closes)
  {
  }


  /** No closing `[/list]` begins in `[*]` and a text without `[`. */
  lemma ItemBodyNoClose(x: string)
    requires '[' !in x
    ensures NoCloseIn("[*]" + x, ["[/list]"])
  {
    var b := "[*]" + x;
    forall i | 0 <= i < |b|
      ensures b[i] == '[' ==> i + 1 < |b| && b[i + 1] != '/'
    {
      if i >= 3 { assert b[i] == x[i - 3]; }
    }
  }




  /** The source's HTML list rule on a one-item list leaves the item marker. */
  lemma UnorderedListHtmlOnItem(x: string)
    requires '[' !in x
    ensures Rewrite(UnorderedListHtml, "[list][*]" + x + "[/list]") == UlOpen + "[*]" + x + "</ul>"
  {
    assert "[list][*]" + x + "[/list]" == "[list]" + ("[*]" + x) + "[/list]";
    assert UlOpen + ("[*]" + x) + "</ul>" == UlOpen + "[*]" + x + "</ul>";
    ItemBodyNoClose(x);
    UnorderedListHtmlStep("[*]" + x);
  }

  /** After the list rule, the numbered-list rule does not change the list. */
  lemma OrderedListKeepsBareItem(x: string)
    requires '[' !in x
    ensures var u := UlOpen + "[*]" + x + "</ul>";
      Rewrite(OrderedListHtml, u) == u
  {
    assert '[' !in UlOpen;
    assert UlOpen + "[*]" + x + "</ul>" == UlOpen + ("[*]" + x + "</ul>");
    KeepsItem(OrderedListHtml, x, "</ul>");
    RewriteCopiesPlain(OrderedListHtml, UlOpen, "[*]" + x + "</ul>");
  }

  /** Nor does the item rule, which finds no `[*]` or `[/list]` after the marker. */
  lemma ItemKeepsBareItem(x: string)
    requires '[' !in x && OnOneLine(x)
    ensures var u := UlOpen + "[*]" + x + "</ul>";
      Rewrite(ItemHtml, u) == u
  {
    assert UlOpen + "[*]" + x + "</ul>" == UlOpen + ("[*]" + (x + "</ul>"));
    assert '[' !in UlOpen && '[' !in "</ul>";
    var tail := x + "</ul>";
    assert OnOneLine(tail) by {
      forall i | 0 <= i < |tail| ensures !IsLineTerminator(tail[i]) {
        if i >= |x| { assert tail[i] == "</ul>"[i - |x|]; }
      }
    }
    assert '[' !in tail;
    RewriteOpenWithoutClose(ItemHtml, tail);
    RewriteCopiesPlain(ItemHtml, UlOpen, "[*]" + tail);
  }

  /** The source's HTML chain leaves the last item of a list as `[*]` text: the list rule has
      already taken the `[/list]` that the item rule looks ahead for. */
  lemma ListItemLeftUnconverted(x: string)
    requires '[' !in x && OnOneLine(x)
    ensures BBCodeToHtml("[list][*]" + x + "[/list]") == UlOpen + "[*]" + x + "</ul>"
  {
    assert UlOpen + ("[*]" + x) + "</ul>" == UlOpen + "[*]" + x + "</ul>";
    assert '\n' !in UlOpen && '\n' !in "[*]" + x;
    assert '\n' !in UlOpen + "[*]" + x + "</ul>";
    HtmlOnListText(x);
    UnorderedListHtmlOnItem(x);
    OrderedListKeepsBareItem(x);
    ItemKeepsBareItem(x);
  }

  /** The share page's conversion is the source's chain: it leaves the last item of a list as
      `[*]` text. */
  lemma FormatBBCodeLeavesListItem(x: string)
    requires '[' !in x && OnOneLine(x)
    ensures FormatBBCode("[list][*]" + x + "[/list]") == UlOpen + "[*]" + x + "</ul>"
  {
    ListItemLeftUnconverted(x);
  }

  /** The item rule inside a one-item list. */
  lemma ItemInList(rule: Rule, x: string)
    requires rule.open == "[*]" && rule.mid.None? && rule.closes == ["[*]", "[/list]"] && rule.lookahead && !rule.dotAll
    requires '[' !in x && OnOneLine(x)
    ensures Rewrite(rule, "[list][*]" + x + "[/list]") == "[list]" + Expand(rule.template, x, "") + "[/list]"
  {
    assert "[list][*]" + x + "[/list]" == "[list]" + ("[*]" + x + "[/list]");
    assert Rewrite(rule, "[*]" + x + "[/list]") == Expand(rule.template, x, "") + "[/list]" by {
      ItemRuleStep(rule, x);
    }
    assert Misses(rule.open, "[list]");
    RewriteCopiesPiece(rule, "[list]", "[*]" + x + "[/list]");
  }

  lemma ItemHtmlInList(x: string)
    requires '[' !in x && OnOneLine(x)
    ensures Rewrite(ItemHtml, "[list][*]" + x + "[/list]") == "[list]" + ("<li>" + x + "</li>") + "[/list]"
  {
    ItemInList(ItemHtml, x);
    ExpandThree(Lit("<li>"), Group1, Lit("</li>"), x, "");
  }

  /** With the items converted first, the last item of a list becomes a `<li>` too. */
  lemma ListItemConverted(x: string)
    requires '[' !in x && OnOneLine(x)
    ensures BBCodeToHtmlCorrected("[list][*]" + x + "[/list]") == UlOpen + "<li>" + x + "</li>" + "</ul>"
  {
    var body := "<li>" + x + "</li>";
    var v := UlOpen + body + "</ul>";
    assert '[' !in body && '\n' !in body by {
      assert '\n' !in x;
    }
    assert '[' !in v && '\n' !in v by {
      assert '[' !in UlOpen && '\n' !in UlOpen && '[' !in "</ul>" && '\n' !in "</ul>";
    }
    assert v == UlOpen + "<li>" + x + "</li>" + "</ul>";
    CorrectedHtmlOnListText(x);
    ItemHtmlInList(x);
    NoBracketNoClose(body, ["[/list]"]);
    UnorderedListHtmlStep(body);
    RewriteWithoutBracket(OrderedListHtml, v);
  }

  /** The source's plain-text list rule on a one-item list leaves the item marker. */
  lemma UnorderedListPlainOnItem(x: string)
    requires '[' !in x
    ensures Rewrite(UnorderedListPlain, "[list][*]" + x + "[/list]") == "[*]" + x
  {
    assert "[list][*]" + x + "[/list]" == "[list]" + ("[*]" + x) + "[/list]";
    assert Rewrite(UnorderedListPlain, "[list]" + ("[*]" + x) + "[/list]") == "[*]" + x by {
      ItemBodyNoClose(x);
      UnorderedListPlainStep("[*]" + x);
    }
  }

  /** After the list rule, the numbered-list rule and the item rule keep the bare item. */
  lemma LaterPlainRulesKeepBareItem(x: string)
    requires '[' !in x && OnOneLine(x)
    ensures Rewrite(OrderedListPlain, "[*]" + x) == "[*]" + x
    ensures Rewrite(ItemPlainAsWritten, "[*]" + x) == "[*]" + x
  {
    assert Misses("[list=1]", "[*]");
    RewriteCopiesPiece(OrderedListPlain, "[*]", x);
    RewriteWithoutBracket(OrderedListPlain, x);
    RewriteOpenWithoutClose(ItemPlainAsWritten, x);
  }

  /** A bare item passes the last two plain-text steps. */
  lemma BareItemOutput(x: string)
    requires OnOneLine(x) && Trimmed(x)
    ensures TrimJs(CollapseNewlines("[*]" + x)) == "[*]" + x
  {
    var u := "[*]" + x;
    assert NoDoubleNewline(u) by {
      assert '\n' !in x;
      assert '\n' !in u;
    }
    assert Trimmed(u) by {
      if x == [] {
        assert u == "[*]";
      } else {
        assert u[0] == '[' && u[|u| - 1] == x[|x| - 1];
      }
    }
  }

  /** In the source's plain-text chain the last item of a list keeps its `[*]` marker. */
  lemma PlainListItemLeftUnconverted(x: string)
    requires '[' !in x && OnOneLine(x) && Trimmed(x)
    ensures BBCodeToPlainText("[list][*]" + x + "[/list]") == "[*]" + x
  {
    PlainOnListText(x, "[list][*]" + x + "[/list]");
    UnorderedListPlainOnItem(x);
    LaterPlainRulesKeepBareItem(x);
    BareItemOutput(x);
  }

  /** The intended bullet and a trimmed text after it. */
  lemma BulletLine(x: string)
    requires '[' !in x && OnOneLine(x) && Trimmed(x) && x != []
    ensures var line := Bullet + x + "\n";
      '[' !in line && NoDoubleNewline(line) && TrimJs(line) == Bullet + x
  {
    assert '[' !in Bullet && '\n' !in Bullet && '\n' !in x;
    assert '[' !in Bullet + x + "\n";
    assert NoDoubleNewline(Bullet + x + "\n");
    assert Trimmed(Bullet + x);
    TrimDropsFinalNewline(Bullet + x);
  }

  /** With the items converted first, the last item of a list is bulleted. */
  lemma PlainListItemConverted(x: string)
    requires '[' !in x && OnOneLine(x) && Trimmed(x) && x != []
    ensures BBCodeToPlainTextCorrected("[list][*]" + x + "[/list]") == Bullet + x
  {
    CorrectedPlainOnListText(x, "[list][*]" + x + "[/list]");
    ItemInList(ItemPlain, x);
    ExpandThree(Lit(Bullet), Group1, Lit("\n"), x, "");
    var line := Bullet + x + "\n";
    BulletLine(x);
    NoBracketNoClose(line, ["[/list]"]);
    UnorderedListPlainStep(line);
    RewriteWithoutBracket(OrderedListPlain, line);
  }

  /** The item rule of a plain-text chain on a stray item, and the list rules after it. */
  lemma StrayItemThenLists(item: Rule, bullet: string, x: string)
    requires item == ItemRule([Lit(bullet), Group1, Lit("\n")])
    requires '[' !in x && OnOneLine(x) && '[' !in bullet
    ensures var u := bullet + x + "\n" + "[/list]";
      && Rewrite(item, "[*]" + x + "[/list]") == u
      && Rewrite(UnorderedListPlain, u) == u && Rewrite(OrderedListPlain, u) == u
  {
    var line := bullet + x + "\n";
    assert Rewrite(item, "[*]" + x + "[/list]") == line + "[/list]" by {
      ItemRuleStep(item, x);
      ExpandThree(Lit(bullet), Group1, Lit("\n"), x, "");
    }
    assert '[' !in line by {
      assert '[' !in bullet + x + "\n";
    }
    assert Rewrite(UnorderedListPlain, line + "[/list]") == line + "[/list]" by {
      RewriteTail(UnorderedListPlain, "[/list]");
      RewriteCopiesPlain(UnorderedListPlain, line, "[/list]");
    }
    assert Rewrite(OrderedListPlain, line + "[/list]") == line + "[/list]" by {
      RewriteTail(OrderedListPlain, "[/list]");
      RewriteCopiesPlain(OrderedListPlain, line, "[/list]");
    }
  }

  /** The list rules of the plain-text chains leave a stray item alone. */
  lemma ListsKeepStrayItem(x: string)
    requires '[' !in x
    ensures var t := "[*]" + x + "[/list]";
      Rewrite(UnorderedListPlain, t) == t && Rewrite(OrderedListPlain, t) == t
  {
    assert Misses("[list]", "[/list]") && Misses("[list=1]", "[/list]");
    assert '[' !in "[/list]"[1..];
    KeepsItem(UnorderedListPlain, x, "[/list]");
    KeepsItem(OrderedListPlain, x, "[/list]");
  }

  /** The characters at the ends of the plain-text outputs are not white space. */
  lemma EndsAreNotBlank()
    ensures !IsJsWhitespace(GarbledBullet[0]) && !IsJsWhitespace(Bullet[0])
    ensures !IsJsWhitespace("[/list]"[6])
    ensures '[' !in GarbledBullet && '\n' !in GarbledBullet && '[' !in Bullet && '\n' !in Bullet
  {
  }

  /** A bullet, a one-line text, a line feed and `[/list]` pass the last two plain-text steps. */
  lemma StrayItemOutput(bullet: string, x: string)
    requires bullet != [] && !IsJsWhitespace(bullet[0]) && '\n' !in bullet && '\n' !in x
    ensures var u := bullet + x + "\n" + "[/list]";
      TrimJs(CollapseNewlines(u)) == u
  {
    EndsAreNotBlank();
    assert '\n' !in bullet + x;
    assert '\n' !in "[/list]";
    assert NoDoubleNewline(bullet + x + "\n" + "[/list]");
    assert Trimmed(bullet + x + "\n" + "[/list]");
    assert bullet + (x + "\n") + "[/list]" == bullet + x + "\n" + "[/list]";
  }

  /** The source's plain-text bullet is three characters of mojibake and a space. */
  lemma ItemBulletGarbled(x: string)
    requires '[' !in x && OnOneLine(x)
    ensures BBCodeToPlainText("[*]" + x + "[/list]") == GarbledBullet + x + "\n" + "[/list]"
  {
    PlainOnListText(x, "[*]" + x + "[/list]");
    ListsKeepStrayItem(x);
    EndsAreNotBlank();
    StrayItemThenLists(ItemPlainAsWritten, GarbledBullet, x);
    assert '\n' !in x;
    StrayItemOutput(GarbledBullet, x);
  }

  /** With the intended bullet, a stray item becomes `• ` and its text. */
  lemma ItemBulleted(x: string)
    requires '[' !in x && OnOneLine(x)
    ensures BBCodeToPlainTextCorrected("[*]" + x + "[/list]") == Bullet + x + "\n" + "[/list]"
  {
    CorrectedPlainOnListText(x, "[*]" + x + "[/list]");
    EndsAreNotBlank();
    StrayItemThenLists(ItemPlain, Bullet, x);
    assert '\n' !in x;
    StrayItemOutput(Bullet, x);
  }
}
