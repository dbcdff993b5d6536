/** The residue PDB ID / label formatter shared by the pocket classes
    (`Base._format_residue_pdb_ids_and_labels`): default the labels, check
    that IDs and labels line up, and cast every truthy element to a string. */
module Pocket {
  import Decimal

  /** The Python values that reach the formatter as residue IDs or labels. */
  datatype Value = None | Int(i: int) | Str(s: string) | Bool(b: bool)

  /** Python truthiness: `None`, `0`, `""` and `False` are falsy. */
  predicate Truthy(v: Value)
    ensures Truthy(v) <==> v !in {None, Int(0), Str(""), Bool(false)}
  {
    match v
    case None => false
    case Int(i) => i != 0
    case Str(s) => s != ""
    case Bool(b) => b
  }

  /** Python's `str(v)`. */
  function ToStr(v: Value): (r: string)
    ensures v.Str? ==> r == v.s
    ensures !v.Str? ==> r != ""
    ensures v.Int? ==> Decimal.FromInt(v.i) == r
  {
    match v
    case None => "None"
    case Int(i) => Decimal.FromInt(i)
    case Str(s) => s
    case Bool(b) => if b then "True" else "False"
  }

  /** The element cast `str(x) if x else x`. */
  function Cast(v: Value): (r: Value)
    ensures Truthy(r) == Truthy(v)
    ensures !Truthy(v) ==> r == v
    ensures Truthy(v) ==> r.Str? && r.s == ToStr(v)
  {
    if Truthy(v) then Str(ToStr(v)) else v
  }

  /** Casting an already cast element changes nothing. */
  lemma CastIdempotent(v: Value)
    ensures Cast(Cast(v)) == Cast(v)
  {
  }

  /** The list comprehension `[Cast(x) for x in xs]`. */
  function CastAll(xs: seq<Value>): (r: seq<Value>)
    ensures |r| == |xs|
    ensures forall k :: 0 <= k < |xs| ==> r[k] == Cast(xs[k])
  {
    if xs == [] then [] else [Cast(xs[0])] + CastAll(xs[1..])
  }

  lemma CastAllIdempotent(xs: seq<Value>)
    ensures CastAll(CastAll(xs)) == CastAll(xs)
  {
  }

  /** The `residue_labels` argument: `None`, or a list of values. */
  datatype LabelsArg = Missing | Given(items: seq<Value>)

  /** `not residue_labels`: `None` or the empty list. */
  predicate LabelsFalsy(labels: LabelsArg)
    ensures LabelsFalsy(labels) <==> labels in {Missing, Given([])}
  {
    labels.Missing? || labels.items == []
  }

  /** The result of the formatter: the two cast lists, or the `ValueError` it raises. */
  datatype Outcome = Formatted(ids: seq<Value>, labels: seq<Value>) | ValueError(message: string)

  const LengthMismatch := "Number of residue PDB IDs and labels must be of same length."

  function FormatResidueIdsAndLabels(ids: seq<Value>, labels: LabelsArg): (r: Outcome)
    // the length check runs after defaulting, so only supplied labels can fail it
    ensures r.ValueError? <==> !LabelsFalsy(labels) && |labels.items| != |ids|
    ensures r.ValueError? ==> r.message == LengthMismatch
    // both lists keep the length and order of the IDs
    ensures r.Formatted? ==> |r.ids| == |ids| && |r.labels| == |ids|
    ensures r.Formatted? ==> forall k :: 0 <= k < |ids| ==> r.ids[k] == Cast(ids[k])
    // absent labels become one None per ID
    ensures r.Formatted? && LabelsFalsy(labels) ==> forall k :: 0 <= k < |ids| ==> r.labels[k] == None
    ensures r.Formatted? && !LabelsFalsy(labels) ==>
              forall k :: 0 <= k < |ids| ==> r.labels[k] == Cast(labels.items[k])
    // every truthy output element is a string
    ensures r.Formatted? ==> forall k :: 0 <= k < |ids| ==> (Truthy(r.ids[k]) ==> r.ids[k].Str?)
    ensures r.Formatted? ==> forall k :: 0 <= k < |ids| ==> (Truthy(r.labels[k]) ==> r.labels[k].Str?)
  {
    var defaulted := if LabelsFalsy(labels) then seq(|ids|, _ => None) else labels.items;
    if |ids| != |defaulted| then ValueError(LengthMismatch)
    else Formatted(CastAll(ids), CastAll(defaulted))
  }

  /** No IDs: absent or empty labels give two empty lists, any other labels an error. */
  lemma FormatEmptyIds(labels: LabelsArg)
    ensures LabelsFalsy(labels) ==> FormatResidueIdsAndLabels([], labels) == Formatted([], [])
    ensures !LabelsFalsy(labels) ==> FormatResidueIdsAndLabels([], labels) == ValueError(LengthMismatch)
  {
  }

  /** Feeding a successful result back in returns it unchanged. */
  lemma FormatIdempotent(ids: seq<Value>, labels: LabelsArg)
    requires FormatResidueIdsAndLabels(ids, labels).Formatted?
    ensures var r := FormatResidueIdsAndLabels(ids, labels);
            FormatResidueIdsAndLabels(r.ids, Given(r.labels)) == r
  {
  }
}
