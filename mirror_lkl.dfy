/**
 * The last-known-location (LKL) mirror: every LKL feature is either an update of a
 * feature already in the mirror layer or an add to it. A feature counts as already
 * mirrored when some mirror feature's global id, lower-cased, occurs inside the LKL
 * feature's lower-cased `globalid` (a substring test rather than equality, because one
 * side may carry braces around the GUID).
 *
 * The two layer queries are the sequences `lkl` and `mirror`; whether the mirror item
 * exists is the flag `itemFound`; the final `edit_features` post is the `Posted` outcome.
 */
module MirrorLkl {
  import opened Wrappers
  import Seqs
  import Text
  import FieldNames

  /** A last-known-location feature: only its `globalid` attribute matters here; the rest is posted as it is. */
  datatype LklFeature = LklFeature(globalid: string, attributes: map<string, string>)

  /** A feature of the mirror layer, by the value of its global-id field. */
  datatype MirrorFeature = MirrorFeature(globalId: string)

  /** How a run ends. */
  datatype MirrorOutcome =
    | ItemNotFound                                           // the mirror item id does not resolve
    | NoLkl                                                  // the LKL layer is empty: nothing is posted
    | GlobalIdFieldMissing                                   // the mirror layer has no global-id field: the lookup fails
    | Posted(adds: seq<LklFeature>, updates: seq<LklFeature>) // the edit sent to the mirror layer

  /** The containment test of the matching loop, against one mirror feature. */
  predicate SameFeature(m: MirrorFeature, f: LklFeature) {
    Text.IsSubstring(Text.Lower(m.globalId), Text.Lower(f.globalid))
  }

  /** Some mirror feature matches. */
  predicate Matched(mirror: seq<MirrorFeature>, f: LklFeature) {
    exists j | 0 <= j < |mirror| :: SameFeature(mirror[j], f)
  }

  /** The LKL features already mirrored, in LKL order. */
  function Updates(lkl: seq<LklFeature>, mirror: seq<MirrorFeature>): seq<LklFeature> {
    Seqs.Filter(lkl, (f: LklFeature) => Matched(mirror, f))
  }

  /** The LKL features not mirrored yet, in LKL order. */
  function Adds(lkl: seq<LklFeature>, mirror: seq<MirrorFeature>): seq<LklFeature> {
    Seqs.Filter(lkl, (f: LklFeature) => !Matched(mirror, f))
  }

  /** The script's `main` as a value, given the layers' contents and the mirror layer's field names. */
  function Mirror(itemFound: bool, lkl: seq<LklFeature>, mirrorFields: seq<string>, mirror: seq<MirrorFeature>)
    : MirrorOutcome
  {
    if !itemFound then ItemNotFound
    else if |lkl| == 0 then NoLkl
    // the field name is looked up at the first comparison, so only when there is one
    else if |mirror| > 0 && FieldNames.FieldFor(mirrorFields, "global_id").None? then GlobalIdFieldMissing
    else Posted(Adds(lkl, mirror), Updates(lkl, mirror))
  }

  /** The inner loop: is the feature matched by some mirror feature, searching in order and stopping at the first? */
  method FindInMirror(feature: LklFeature, mirrorFields: seq<string>, mirror: seq<MirrorFeature>)
    returns (found: Option<bool>)
    ensures found.None? <==> |mirror| > 0 && FieldNames.FieldFor(mirrorFields, "global_id").None?
    ensures found.Some? ==> found.value == Matched(mirror, feature)
  {
    var isFound := false;
    for j := 0 to |mirror|
      invariant forall k | 0 <= k < j :: !SameFeature(mirror[k], feature)
      invariant j > 0 ==> FieldNames.FieldFor(mirrorFields, "global_id").Some?
    {
      var globalIdField := FieldNames.ReturnFieldName(mirrorFields, "global_id");
      if globalIdField.None? {
        return None;
      }
      if SameFeature(mirror[j], feature) {
        isFound := true;
        break;
      }
      NoMatchExtends(mirror, feature, j);
    }
    return Some(isFound);
  }

  /** One more non-matching mirror feature extends the unmatched prefix. */
  lemma NoMatchExtends(mirror: seq<MirrorFeature>, feature: LklFeature, j: nat)
    requires j < |mirror| && !SameFeature(mirror[j], feature)
    requires forall k | 0 <= k < j :: !SameFeature(mirror[k], feature)
    ensures forall k | 0 <= k < j + 1 :: !SameFeature(mirror[k], feature)
  {
  }

  /** Taking one more LKL feature puts it at the end of exactly one of the two lists. */
  lemma PartitionStep(lkl: seq<LklFeature>, mirror: seq<MirrorFeature>, i: nat)
    requires i < |lkl|
    ensures Updates(lkl[..i + 1], mirror)
      == Updates(lkl[..i], mirror) + (if Matched(mirror, lkl[i]) then [lkl[i]] else [])
    ensures Adds(lkl[..i + 1], mirror)
      == Adds(lkl[..i], mirror) + (if Matched(mirror, lkl[i]) then [] else [lkl[i]])
  {
    assert lkl[..i + 1] == lkl[..i] + [lkl[i]];
    Seqs.FilterSnoc(lkl[..i], lkl[i], (f: LklFeature) => Matched(mirror, f));
    Seqs.FilterSnoc(lkl[..i], lkl[i], (f: LklFeature) => !Matched(mirror, f));
  }

  /**
   * `main`: stop when the item is missing or the LKL layer is empty; otherwise put every
   * LKL feature, in order, into `update_features` when it is matched and into
   * `add_features` when it is not, and post both.
   */
  method MirrorLayer(itemFound: bool, lkl: seq<LklFeature>, mirrorFields: seq<string>, mirror: seq<MirrorFeature>)
    returns (r: MirrorOutcome)
    ensures r == Mirror(itemFound, lkl, mirrorFields, mirror)
  {
    if !itemFound {
      return ItemNotFound;
    }
    if |lkl| == 0 {
      return NoLkl;
    }
    var addFeatures := [];
    var updateFeatures := [];
    for i := 0 to |lkl|
      invariant addFeatures == Adds(lkl[..i], mirror)
      invariant updateFeatures == Updates(lkl[..i], mirror)
      invariant i > 0 ==> !(|mirror| > 0 && FieldNames.FieldFor(mirrorFields, "global_id").None?)
    {
      var feature := lkl[i];
      var found := FindInMirror(feature, mirrorFields, mirror);
      if found.None? {
        return GlobalIdFieldMissing;
      }
      PartitionStep(lkl, mirror, i);
      if found.value {
        updateFeatures := updateFeatures + [feature];
      } else {
        addFeatures := addFeatures + [feature];
      }
    }
    assert lkl[..|lkl|] == lkl;
    return Posted(addFeatures, updateFeatures);
  }

  // ---------------------------------------------------------------- properties of the partition

  /**
   * Every LKL feature lands in exactly one of the two lists: the adds and updates together
   * are as many as the LKL features, updates are exactly the matched ones, adds exactly the
   * unmatched ones, and both keep LKL order.
   */
  lemma PostedPartition(lkl: seq<LklFeature>, mirror: seq<MirrorFeature>)
    ensures |Adds(lkl, mirror)| + |Updates(lkl, mirror)| == |lkl|
    ensures forall f | f in lkl :: (f in Updates(lkl, mirror) <==> Matched(mirror, f))
    ensures forall f | f in lkl :: (f in Adds(lkl, mirror) <==> !Matched(mirror, f))
    ensures forall f | f in Updates(lkl, mirror) + Adds(lkl, mirror) :: f in lkl
    ensures Seqs.IsSubsequence(Adds(lkl, mirror), lkl) && Seqs.IsSubsequence(Updates(lkl, mirror), lkl)
  {
    var matched := (f: LklFeature) => Matched(mirror, f);
    var unmatched := (f: LklFeature) => !Matched(mirror, f);
    Seqs.FilterPartition(lkl, matched, unmatched);
    Seqs.FilterMembers(lkl, matched);
    Seqs.FilterMembers(lkl, unmatched);
    Seqs.FilterIsSubsequence(lkl, matched);
    Seqs.FilterIsSubsequence(lkl, unmatched);
  }

  /** With an empty mirror layer every LKL feature is an add. */
  lemma EmptyMirrorAddsAll(itemFound: bool, lkl: seq<LklFeature>, mirrorFields: seq<string>)
    requires itemFound && |lkl| > 0
    ensures Mirror(itemFound, lkl, mirrorFields, []) == Posted(lkl, [])
  {
    Seqs.FilterAll(lkl, (f: LklFeature) => !Matched([], f));
    PostedPartition(lkl, []);
  }

  /** An empty LKL layer stops the run before anything is posted. */
  lemma EmptyLklPostsNothing(itemFound: bool, mirrorFields: seq<string>, mirror: seq<MirrorFeature>)
    requires itemFound
    ensures !Mirror(itemFound, [], mirrorFields, mirror).Posted?
  {
  }

  /** The mirror features with their global ids lower-cased. */
  function LowerIds(mirror: seq<MirrorFeature>): (lowered: seq<MirrorFeature>)
    ensures |lowered| == |mirror|
    ensures forall j | 0 <= j < |mirror| :: lowered[j].globalId == Text.Lower(mirror[j].globalId)
  {
    seq(|mirror|, j requires 0 <= j < |mirror| => MirrorFeature(Text.Lower(mirror[j].globalId)))
  }

  /**
   * Matching ignores case on both sides: lower-casing every mirror global id and the LKL
   * `globalid` changes neither which features are updates nor which are adds.
   */
  lemma MatchIgnoresCase(mirror: seq<MirrorFeature>, f: LklFeature)
    ensures Matched(LowerIds(mirror), f.(globalid := Text.Lower(f.globalid))) == Matched(mirror, f)
  {
    Text.LowerIdempotent(f.globalid);
    forall j | 0 <= j < |mirror|
      ensures SameFeature(LowerIds(mirror)[j], f.(globalid := Text.Lower(f.globalid))) == SameFeature(mirror[j], f)
    {
      Text.LowerIdempotent(mirror[j].globalId);
    }
  }

  /** A braced, upper-case GUID in the LKL layer still matches its bare, lower-case form in the mirror. */
  lemma BracedGuidMatches()
    ensures SameFeature(MirrorFeature("ab-12"), LklFeature("{AB-12}", map[]))
  {
    assert Text.Lower("{AB-12}") == "{ab-12}";
    assert Text.Lower("ab-12") == "ab-12";
    assert Text.IsPrefix("ab-12", "{ab-12}"[1..]);
    assert "{ab-12}"[1..] == "ab-12}";
  }
}
