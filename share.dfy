/**
 * The public share page (src/pages/Share.tsx): a reader opens a shared document, views one stored
 * version or the latest compiled text, ticks two entries (versions or "latest") and compares them
 * side by side, older on the left and newer on the right.
 */
module Share {
  import opened Options
  import NormalizeContent

  /** One stored version; its content may be missing in the database. */
  datatype VersionRow = VersionRow(id: string, versionNumber: int, content: Option<string>,
                                   createdAt: string, createdBy: string)

  datatype DocumentData = DocumentData(id: string, title: string, fileName: Option<string>,
                                       content: string, project: string, client: string)

  datatype ShareInfo = ShareInfo(token: string, canEdit: bool, expiresAt: Option<string>,
                                 shareType: string)

  /** What the share endpoint returns. */
  datatype ShareData = ShareData(share: ShareInfo, documentData: DocumentData, versions: seq<VersionRow>)

  /** A version ready for comparison: content already normalised, the latest text flagged. */
  datatype Comparable = Comparable(id: string, versionNumber: int, content: string,
                                   createdAt: string, createdBy: string, isLatest: bool)

  /** The two sides of a comparison: `version1` on the left, `version2` on the right. */
  datatype ComparisonPair = ComparisonPair(version1: Comparable, version2: Comparable)

  /** The pseudo-id under which the latest compiled text can be ticked. */
  const LatestId: string := "latest"
  /** The version number the latest text is given, above any stored version. */
  const LatestNumber: int := 999

  /** The first stored version with the id. */
  function FindVersion(versions: seq<VersionRow>, id: string): (r: Option<VersionRow>)
    ensures r.None? <==> forall i :: 0 <= i < |versions| ==> versions[i].id != id
    ensures r.Some? ==> exists k :: 0 <= k < |versions| && versions[k] == r.value && r.value.id == id &&
                          forall j :: 0 <= j < k ==> versions[j].id != id
  {
    if versions == [] then None
    else if versions[0].id == id then Some(versions[0])
    else
      var r := FindVersion(versions[1..], id);
      assert r.Some? ==> exists k :: 0 <= k < |versions[1..]| && versions[1..][k] == r.value && r.value.id == id &&
                           forall j :: 0 <= j < k ==> versions[1..][j].id != id;
      assert r.Some? ==> exists k :: 0 <= k < |versions| && versions[k] == r.value && r.value.id == id &&
                           forall j :: 0 <= j < k ==> versions[j].id != id by {
        if r.Some? {
          var k :| 0 <= k < |versions[1..]| && versions[1..][k] == r.value && r.value.id == id &&
                   forall j :: 0 <= j < k ==> versions[1..][j].id != id;
          assert versions[k + 1] == r.value;
          assert forall j :: 1 <= j < k + 1 ==> versions[j].id == versions[1..][j - 1].id;
        }
      }
      r
  }

  /** The text shown for a stored version: its own content, or the document's when it has none,
      passed through the content normaliser. */
  function VersionText(data: ShareData, v: VersionRow): (r: string)
    ensures v.content.Some? ==> r == v.content.value
    ensures v.content.None? ==> r == data.documentData.content
  {
    NormalizeContent.Normalize(NormalizeContent.Str(v.content.GetOr(data.documentData.content)))
  }

  /** The author shown for the latest text: the client, or "system" when that is empty. */
  function LatestAuthor(data: ShareData): (r: string)
    ensures r != ""
    ensures data.documentData.client != "" ==> r == data.documentData.client
  {
    if data.documentData.client != "" then data.documentData.client else "system"
  }

  /** An id turned into a comparable version: "latest" is the document's text stamped `now`;
      any other id must name a stored version. */
  function MakeComparable(data: ShareData, id: string, now: string): (r: Option<Comparable>)
    ensures r.Some? ==> r.value.id == id
    ensures id == LatestId ==>
              (r.Some? && r.value.isLatest && r.value.versionNumber == LatestNumber &&
               r.value.content == data.documentData.content && r.value.createdAt == now &&
               r.value.createdBy == LatestAuthor(data))
    ensures id != LatestId ==> (r.None? <==> forall i :: 0 <= i < |data.versions| ==> data.versions[i].id != id)
    ensures id != LatestId && r.Some? ==>
              var v := FindVersion(data.versions, id).value;
              !r.value.isLatest && r.value.versionNumber == v.versionNumber && r.value.content == VersionText(data, v) &&
              r.value.createdAt == v.createdAt && r.value.createdBy == v.createdBy
  {
    if id == LatestId then
      Some(Comparable(LatestId, LatestNumber,
                      NormalizeContent.Normalize(NormalizeContent.Str(data.documentData.content)),
                      now, LatestAuthor(data), true))
    else
      match FindVersion(data.versions, id)
      case None => None
      case Some(v) =>
        Some(Comparable(v.id, v.versionNumber, VersionText(data, v), v.createdAt, v.createdBy, false))
  }

  /** The sort comparator: the latest text after any stored version, otherwise by version
      number. */
  function Compare(a: Comparable, b: Comparable): int
  {
    if a.isLatest && !b.isLatest then 1
    else if !a.isLatest && b.isLatest then -1
    else a.versionNumber - b.versionNumber
  }

  /** The comparator is antisymmetric, so sorting two entries is well defined. */
  lemma CompareAntisymmetric(a: Comparable, b: Comparable)
    ensures Compare(a, b) == -Compare(b, a)
    ensures Compare(a, b) > 0 <==> Compare(b, a) < 0
  {
  }

  /** The two entries sorted by the comparator (a stable sort of two elements: they swap only when
      the first compares greater). */
  function OrderPair(v1: Comparable, v2: Comparable): (r: ComparisonPair)
    ensures (r.version1 == v1 && r.version2 == v2) || (r.version1 == v2 && r.version2 == v1)
    ensures Compare(r.version1, r.version2) <= 0
    ensures r.version1.isLatest ==> r.version2.isLatest
    ensures !r.version2.isLatest ==> r.version1.versionNumber <= r.version2.versionNumber
    ensures r.version1.isLatest == r.version2.isLatest ==> r.version1.versionNumber <= r.version2.versionNumber
  {
    if Compare(v1, v2) > 0 then ComparisonPair(v2, v1) else ComparisonPair(v1, v2)
  }

  /** Ticking the two entries in the other order gives the same sides, unless they tie. */
  lemma OrderPairSymmetric(v1: Comparable, v2: Comparable)
    requires Compare(v1, v2) != 0
    ensures OrderPair(v1, v2) == OrderPair(v2, v1)
  {
    CompareAntisymmetric(v1, v2);
  }

  // The ticked ids: a JavaScript Set, which keeps insertion order, is a sequence without
  // repetitions.

  predicate Distinct(s: seq<string>)
  {
    forall i, j :: 0 <= i < j < |s| ==> s[i] != s[j]
  }

  /** The set with `x` added at the end, unless present. */
  function Add(s: seq<string>, x: string): (r: seq<string>)
    ensures forall y :: y in r <==> y in s || y == x
    ensures Distinct(s) ==> Distinct(r)
    ensures x in s ==> r == s
    ensures x !in s ==> r == s + [x]
  {
    if x in s then s else s + [x]
  }

  /** The set without `x`; the others keep their order. */
  function Remove(s: seq<string>, x: string): (r: seq<string>)
    ensures forall y :: y in r <==> y in s && y != x
    ensures Distinct(s) ==> Distinct(r)
    ensures x !in s ==> r == s
    ensures |r| <= |s|
  {
    if s == [] then []
    else
      var rest := Remove(s[1..], x);
      if s[0] == x then rest
      else
        assert Distinct(s) ==> s[0] !in s[1..];
        [s[0]] + rest
  }

  /** Ticking an unticked id and unticking it again restores the set, order included. */
  lemma {:induction false} AddThenRemove(s: seq<string>, x: string)
    requires x !in s
    ensures Remove(Add(s, x), x) == s
  {
    if s != [] {
      assert (s + [x])[1..] == s[1..] + [x];
      AddThenRemove(s[1..], x);
    }
  }

  /** What Compare does with the ticked ids: two of them, both resolving, made comparable and
      sorted into a pair. */
  function ComparisonFor(data: ShareData, ids: seq<string>, now: string): (r: Option<ComparisonPair>)
    ensures r.Some? <==> |ids| == 2 && MakeComparable(data, ids[0], now).Some? &&
                         MakeComparable(data, ids[1], now).Some?
    ensures r.Some? ==> r.value == OrderPair(MakeComparable(data, ids[0], now).value,
                                             MakeComparable(data, ids[1], now).value)
    ensures r.Some? ==> (r.value.version1.id == ids[0] && r.value.version2.id == ids[1]) ||
                        (r.value.version1.id == ids[1] && r.value.version2.id == ids[0])
    ensures r.Some? && LatestId in ids ==> r.value.version2.isLatest && r.value.version2.id == LatestId
    ensures r.Some? && LatestId !in ids ==>
              !r.value.version2.isLatest && r.value.version1.versionNumber <= r.value.version2.versionNumber
  {
    if |ids| != 2 then None
    else
      var v1 := MakeComparable(data, ids[0], now);
      var v2 := MakeComparable(data, ids[1], now);
      if v1.None? || v2.None? then None
      else
        var p := OrderPair(v1.value, v2.value);
        assert LatestId in ids ==> ids[0] == LatestId || ids[1] == LatestId;
        Some(p)
  }

  /** The page's state. */
  class SharePage {
    var shareData: Option<ShareData>
    var selectedVersionId: Option<string>
    var currentContent: string
    var selectedVersions: seq<string>
    var isComparing: bool
    var comparisonVersions: Option<ComparisonPair>

    /** The ticked ids are a set, and the page compares exactly when it holds a pair. */
    predicate Valid()
      reads this
    {
      Distinct(selectedVersions) && (isComparing <==> comparisonVersions.Some?)
    }

    /** The version sidebar: shown when there are versions and no comparison is under way. */
    predicate SidebarShown()
      reads this
    {
      shareData.Some? && |shareData.value.versions| > 0 && !isComparing
    }

    /** The comparison view: shown while comparing with a pair in hand. Its header and the
        comparison component hold the only controls that leave comparison mode; otherwise the
        plain document view is shown. */
    predicate ComparisonShown()
      reads this
    {
      isComparing && comparisonVersions.Some?
    }

    constructor()
      ensures shareData.None? && selectedVersionId.None? && currentContent == ""
      ensures selectedVersions == [] && !isComparing && comparisonVersions.None?
      ensures Valid()
    {
      shareData := None;
      selectedVersionId := None;
      currentContent := "";
      selectedVersions := [];
      isComparing := false;
      comparisonVersions := None;
    }

    /** The shared document arrived: it is kept and its text is shown. */
    method Loaded(data: ShareData)
      modifies this
      ensures shareData == Some(data) && currentContent == data.documentData.content
      ensures selectedVersionId == old(selectedVersionId) && selectedVersions == old(selectedVersions)
      ensures isComparing == old(isComparing) && comparisonVersions == old(comparisonVersions)
      ensures old(Valid()) ==> Valid()
    {
      shareData := Some(data);
      currentContent := data.documentData.content;
    }

    /** View one stored version; an unknown id, or no document yet, changes nothing. */
    method HandleVersionSelect(versionId: string)
      modifies this
      ensures old(shareData).None? || FindVersion(old(shareData).value.versions, versionId).None? ==>
                selectedVersionId == old(selectedVersionId) && currentContent == old(currentContent)
      ensures old(shareData).Some? && FindVersion(old(shareData).value.versions, versionId).Some? ==>
                selectedVersionId == Some(versionId) &&
                currentContent == VersionText(old(shareData).value, FindVersion(old(shareData).value.versions, versionId).value)
      ensures shareData == old(shareData) && selectedVersions == old(selectedVersions)
      ensures isComparing == old(isComparing) && comparisonVersions == old(comparisonVersions)
      ensures old(Valid()) ==> Valid()
    {
      if shareData.None? {
        return;
      }
      var v := FindVersion(shareData.value.versions, versionId);
      if v.None? {
        return;
      }
      selectedVersionId := Some(versionId);
      currentContent := VersionText(shareData.value, v.value);
    }

    /** Back to the latest text. */
    method ResetToLatest()
      modifies this
      ensures old(shareData).None? ==> selectedVersionId == old(selectedVersionId) && currentContent == old(currentContent)
      ensures old(shareData).Some? ==>
                selectedVersionId.None? && currentContent == old(shareData).value.documentData.content
      ensures shareData == old(shareData) && selectedVersions == old(selectedVersions)
      ensures isComparing == old(isComparing) && comparisonVersions == old(comparisonVersions)
      ensures old(Valid()) ==> Valid()
    {
      if shareData.None? {
        return;
      }
      selectedVersionId := None;
      currentContent := NormalizeContent.Normalize(NormalizeContent.Str(shareData.value.documentData.content));
    }

    /** A checkbox: ticking adds the id, unticking removes it; no other id changes. */
    method HandleVersionCheckboxChange(versionId: string, checked: bool)
      modifies this
      ensures checked ==> selectedVersions == Add(old(selectedVersions), versionId)
      ensures !checked ==> selectedVersions == Remove(old(selectedVersions), versionId)
      ensures versionId in selectedVersions <==> checked
      ensures forall y :: y != versionId ==> (y in selectedVersions <==> y in old(selectedVersions))
      ensures shareData == old(shareData) && selectedVersionId == old(selectedVersionId)
      ensures currentContent == old(currentContent)
      ensures isComparing == old(isComparing) && comparisonVersions == old(comparisonVersions)
      ensures old(Valid()) ==> Valid()
    {
      if checked {
        selectedVersions := Add(selectedVersions, versionId);
      } else {
        selectedVersions := Remove(selectedVersions, versionId);
      }
    }

    /** Untick everything. */
    method ClearSelectedVersions()
      modifies this
      ensures selectedVersions == []
      ensures shareData == old(shareData) && selectedVersionId == old(selectedVersionId)
      ensures currentContent == old(currentContent)
      ensures isComparing == old(isComparing) && comparisonVersions == old(comparisonVersions)
      ensures old(Valid()) ==> Valid()
    {
      selectedVersions := [];
    }

    /** Compare the two ticked entries: nothing happens unless exactly two are ticked and both
        resolve; then the page enters comparison with the older on the left. */
    method HandleCompare(now: string)
      modifies this
      ensures old(shareData).None? || ComparisonFor(old(shareData).value, old(selectedVersions), now).None? ==>
                isComparing == old(isComparing) && comparisonVersions == old(comparisonVersions)
      ensures old(shareData).Some? && ComparisonFor(old(shareData).value, old(selectedVersions), now).Some? ==>
                isComparing && comparisonVersions == ComparisonFor(old(shareData).value, old(selectedVersions), now)
      ensures shareData == old(shareData) && selectedVersionId == old(selectedVersionId)
      ensures currentContent == old(currentContent) && selectedVersions == old(selectedVersions)
      ensures old(Valid()) ==> Valid()
    {
      if |selectedVersions| != 2 || shareData.None? {
        return;
      }
      var id1, id2 := selectedVersions[0], selectedVersions[1];
      var v1 := MakeComparable(shareData.value, id1, now);
      var v2 := MakeComparable(shareData.value, id2, now);
      if v1.None? || v2.None? {
        return;
      }
      comparisonVersions := Some(OrderPair(v1.value, v2.value));
      isComparing := true;
    }

    /** Leave the comparison: no pair, nothing ticked. */
    method ExitComparison()
      modifies this
      ensures !isComparing && comparisonVersions.None? && selectedVersions == []
      ensures shareData == old(shareData) && selectedVersionId == old(selectedVersionId)
      ensures currentContent == old(currentContent)
      ensures Valid()
      ensures shareData.Some? && |shareData.value.versions| > 0 ==> SidebarShown()
    {
      isComparing := false;
      comparisonVersions := None;
      selectedVersions := [];
    }

    /** The callback handed to the comparison component for after a new version is saved, as
        written: the ticks and the pair go but the page stays in comparison mode. The plain
        document view is then shown, without the version sidebar and without the comparison and
        its exit controls, and the state leaves Valid. */
    method OnVersionCreatedAsWritten()
      modifies this
      ensures selectedVersions == [] && comparisonVersions.None? && isComparing == old(isComparing)
      ensures shareData == old(shareData) && selectedVersionId == old(selectedVersionId)
      ensures currentContent == old(currentContent)
      ensures old(isComparing) ==> !Valid() && !SidebarShown() && !ComparisonShown()
    {
      selectedVersions := [];
      comparisonVersions := None;
    }

    /** The callback as intended: it leaves the comparison, as ExitComparison does, so the sidebar
        returns. */
    method OnVersionCreated()
      modifies this
      ensures selectedVersions == [] && comparisonVersions.None? && !isComparing
      ensures shareData == old(shareData) && selectedVersionId == old(selectedVersionId)
      ensures currentContent == old(currentContent)
      ensures Valid()
      ensures shareData.Some? && |shareData.value.versions| > 0 ==> SidebarShown()
    {
      selectedVersions := [];
      comparisonVersions := None;
      isComparing := false;
    }
  }

  /** On a valid page with versions, the reader always sees either the sidebar or the comparison. */
  lemma ValidPageShowsAView(page: SharePage)
    requires page.Valid()
    requires page.shareData.Some? && |page.shareData.value.versions| > 0
    ensures page.SidebarShown() || page.ComparisonShown()
    ensures !(page.SidebarShown() && page.ComparisonShown())
  {
  }

  /** The page as written strands the reader once the callback runs: comparing, a new version is
      saved, and afterwards the page is still in comparison mode with neither the sidebar nor the
      comparison shown, so no control on the page leads out of it. */
  method StrandedAfterSave(data: ShareData, now: string) returns (page: SharePage)
    requires |data.versions| > 0 && data.versions[0].id != LatestId
    ensures page.shareData == Some(data)
    ensures page.isComparing
    ensures !page.SidebarShown() && !page.ComparisonShown()
  {
    page := new SharePage();
    page.Loaded(data);
    page.HandleVersionCheckboxChange(LatestId, true);
    page.HandleVersionCheckboxChange(data.versions[0].id, true);
    page.HandleCompare(now);
    page.OnVersionCreatedAsWritten();
  }
}
