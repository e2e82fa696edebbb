/** The Shariah compliance policy: a fixed, read-only list of job categories
    that are prohibited when a user has Shariah mode switched on. Being a
    `const`, the list cannot change at run time. */
module Shariah {
  import Text

  const ProhibitedCategories: seq<string> :=
    ["riba", "interest", "gambling", "adult", "alcohol", "pork", "weapons", "drugs"]

  /** The list holds eight entries and no entry twice. */
  lemma {:induction false} EntriesDistinct()
    ensures |ProhibitedCategories| == 8
    ensures forall i, j :: 0 <= i < j < |ProhibitedCategories| ==>
      ProhibitedCategories[i] != ProhibitedCategories[j]
  {
    var p := ProhibitedCategories;
    forall i, j | 0 <= i < j < |p| ensures p[i] != p[j] {
      assert |p[i]| != |p[j]| || p[i][0] != p[j][0];
    }
  }

  /** Every entry is already trimmed and lower-case, so normalising it gives
      it back and a category can actually match it. */
  lemma {:induction false} EntriesNormal()
    ensures forall i :: 0 <= i < |ProhibitedCategories| ==>
      Text.IsNormal(ProhibitedCategories[i])
    ensures forall i :: 0 <= i < |ProhibitedCategories| ==>
      Text.Normalize(ProhibitedCategories[i]) == ProhibitedCategories[i]
  {
    var p := ProhibitedCategories;
    forall i | 0 <= i < |p|
      ensures Text.IsNormal(p[i]) && Text.Normalize(p[i]) == p[i]
    {
      assert forall k :: 0 <= k < |p[i]| ==> 'a' <= p[i][k] <= 'z';
      Text.NormalizeFixesNormal(p[i]);
    }
  }
}
