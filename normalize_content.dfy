/**
 * Content normalisation (src/utils/normalizeContent.ts): any stored document
 * content is reduced to a string before it is diffed or shown. The loosely
 * typed input is a datatype with one variant per shape the function tells
 * apart; where the function hands a value to JavaScript's own conversions
 * (String(), JSON.stringify), the variant carries the text those conversions
 * give, since they are not part of this model.
 */
module NormalizeContent {
  import opened Options

  /** The `insert` field of one Quill Delta operation. */
  datatype Insert =
    | NoInsert                  // missing, or a falsy non-string value (null, false, 0)
    | TextInsert(text: string)  // a string, possibly empty
    | EmbedInsert(asString: string)  // a truthy non-string value; joining converts it to this text

  /** One element of the `ops` array: an operation, or null/undefined (reading its insert throws). */
  datatype DeltaOp = NullishOp | Op(insert: Insert)

  datatype Content =
    | Undefined
    | Null
    | Bool(b: bool)
    | NaN
    | Number(value: real, asString: string)           // asString: String(value)
    | Str(s: string)
    | Delta(ops: seq<DeltaOp>, asString: string)      // an object whose `ops` is an array
    | PlainObject(json: Option<string>, asString: string)  // any other object; json is None when serialisation throws
    | Other(asString: string)                         // a truthy function, symbol or big integer

  /** JavaScript falsiness over the modelled shapes. */
  predicate IsFalsy(c: Content)
  {
    c.Undefined? || c.Null? || c == Bool(false) || c.NaN? || (c.Number? && c.value == 0.0) || c == Str("")
  }

  /** What one operation contributes: its insert, or "" for a falsy one. */
  function InsertText(op: DeltaOp): string
    requires op.Op?
  {
    match op.insert
    case NoInsert => ""
    case TextInsert(t) => t
    case EmbedInsert(t) => t
  }

  /** The summed length of the contributions of `ops`. */
  function InsertLength(ops: seq<DeltaOp>): nat
    requires forall i :: 0 <= i < |ops| ==> ops[i].Op?
  {
    if ops == [] then 0 else |InsertText(ops[0])| + InsertLength(ops[1..])
  }

  /** The contributions of the operations joined in order. */
  function JoinInserts(ops: seq<DeltaOp>): (r: string)
    requires forall i :: 0 <= i < |ops| ==> ops[i].Op?
    ensures |r| == InsertLength(ops)
    ensures (forall i :: 0 <= i < |ops| ==> ops[i].insert.NoInsert?) ==> r == ""
  {
    if ops == [] then "" else InsertText(ops[0]) + JoinInserts(ops[1..])
  }

  /** Joining is in order: the join of two runs of operations is the join of the first followed by
      the join of the second. */
  lemma {:induction false} JoinInsertsAppend(a: seq<DeltaOp>, b: seq<DeltaOp>)
    requires forall i :: 0 <= i < |a| ==> a[i].Op?
    requires forall i :: 0 <= i < |b| ==> b[i].Op?
    ensures JoinInserts(a + b) == JoinInserts(a) + JoinInserts(b)
  {
    if a == [] {
      assert a + b == b;
    } else {
      assert (a + b)[1..] == a[1..] + b;
      JoinInsertsAppend(a[1..], b);
    }
  }

  /** One operation contributes its string insert, the text of a truthy non-string insert, or ""
      when the insert is missing or falsy. */
  lemma OneOpJoins(ins: Insert)
    ensures JoinInserts([Op(ins)]) == match ins
      case NoInsert => ""
      case TextInsert(t) => t
      case EmbedInsert(t) => t
  {
    assert [Op(ins)][1..] == [];
  }

  /** Every falsy value gives "", a string is returned unchanged, a Delta becomes the in-order
      join of its inserts, and when reading an operation throws the object's String() text is
      returned: the function never fails. */
  function Normalize(c: Content): (r: string)
    ensures IsFalsy(c) ==> r == ""
    ensures c.Str? ==> r == c.s
    ensures c.Bool? ==> r == (if c.b then "true" else "")
    ensures c.Delta? && (forall i :: 0 <= i < |c.ops| ==> c.ops[i].Op?) ==> r == JoinInserts(c.ops)
    ensures c.Delta? && (forall i :: 0 <= i < |c.ops| ==> c.ops[i].Op?) ==> |r| == InsertLength(c.ops)
    ensures c.Delta? && (exists i :: 0 <= i < |c.ops| && c.ops[i].NullishOp?) ==> r == c.asString
    ensures c.PlainObject? ==> r == c.json.GetOr(c.asString)
  {
    match c
    case Undefined => ""
    case Null => ""
    case Bool(b) => if b then "true" else ""
    case NaN => ""
    case Number(v, text) => if v == 0.0 then "" else text
    case Str(s) => s
    case Delta(ops, text) =>
      if forall i :: 0 <= i < |ops| ==> ops[i].Op? then JoinInserts(ops) else text
    case PlainObject(json, text) => json.GetOr(text)
    case Other(text) => text
  }

  /** A Delta whose operations carry only string inserts normalises to their concatenation. */
  lemma {:induction false} DeltaOfTexts(texts: seq<string>, asString: string)
    ensures Normalize(Delta(TextOps(texts), asString)) == Concat(texts)
  {
    TextOpsAreOps(texts);
    JoinTextOps(texts);
  }

  /** The operations `{insert: t}` for each `t` of `texts`. */
  function TextOps(texts: seq<string>): (ops: seq<DeltaOp>)
    ensures |ops| == |texts|
  {
    if texts == [] then [] else [Op(TextInsert(texts[0]))] + TextOps(texts[1..])
  }

  function Concat(texts: seq<string>): string
  {
    if texts == [] then "" else texts[0] + Concat(texts[1..])
  }

  lemma {:induction false} TextOpsAreOps(texts: seq<string>)
    ensures forall i :: 0 <= i < |TextOps(texts)| ==> TextOps(texts)[i].Op?
  {
    if texts != [] {
      TextOpsAreOps(texts[1..]);
      assert forall i :: 1 <= i < |texts| ==> TextOps(texts)[i] == TextOps(texts[1..])[i - 1];
    }
  }

  lemma {:induction false} JoinTextOps(texts: seq<string>)
    ensures forall i :: 0 <= i < |TextOps(texts)| ==> TextOps(texts)[i].Op?
    ensures JoinInserts(TextOps(texts)) == Concat(texts)
  {
    TextOpsAreOps(texts);
    if texts != [] {
      JoinTextOps(texts[1..]);
      assert TextOps(texts)[1..] == TextOps(texts[1..]);
    }
  }
}
