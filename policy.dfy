/** The category policy gate: whether a job category is admissible for a user,
    given whether that user has Shariah mode switched on. */
module Policy {
  import opened Wrappers
  import Text
  import Shariah

  /** The module-level `Set` built once from the configured list: same
      members, and since no entry repeats, the same size. */
  function ProhibitedSet(): (s: set<string>)
    ensures forall x :: x in s <==> x in Shariah.ProhibitedCategories
    ensures |s| == |Shariah.ProhibitedCategories|
  {
    Shariah.EntriesDistinct();
    DistinctToSet(Shariah.ProhibitedCategories);
    set x | x in Shariah.ProhibitedCategories
  }

  /** A list without repeats becomes a set of the same size. */
  lemma {:induction false} DistinctToSet(xs: seq<string>)
    requires forall i, j :: 0 <= i < j < |xs| ==> xs[i] != xs[j]
    ensures |set x | x in xs| == |xs|
  {
    if xs != [] {
      DistinctToSet(xs[1..]);
      assert (set x | x in xs) == {xs[0]} + (set x | x in xs[1..]);
      assert xs[0] !in xs[1..];
    }
  }

  /** Membership test against the prohibited set: exact equality with one
      entry, nothing looser. */
  function IsProhibitedCategory(x: string): (r: bool)
    ensures r <==> exists i :: 0 <= i < |Shariah.ProhibitedCategories| && Shariah.ProhibitedCategories[i] == x
  {
    x in ProhibitedSet()
  }

  /** The user record as far as the gate reads it: an optional flag. */
  datatype User = User(shariahMode: Option<bool>)

  /** `!!user?.shariah_mode`: only a present user with the flag present and
      true switches the mode on. */
  function ShariahEnabledFor(user: Option<User>): (r: bool)
    ensures r <==> user == Some(User(Some(true)))
  {
    match user
    case None => false
    case Some(u) => u.shariahMode.Some? && u.shariahMode.value
  }

  /** The gate: everything passes with the mode off; with the mode on, the
      trimmed, lower-cased category must not be one of the prohibited entries. */
  function IsCategoryAllowed(cat: string, shariahMode: bool): (r: bool)
    ensures !shariahMode ==> r
    ensures shariahMode ==>
      (!r <==> exists i :: 0 <= i < |Shariah.ProhibitedCategories| && Shariah.ProhibitedCategories[i] == Text.Normalize(cat))
  {
    if !shariahMode then true
    else
      var c := Text.Normalize(cat);
      !IsProhibitedCategory(c)
  }

  /** The prohibited categories are exactly these eight strings. */
  lemma {:induction false} ProhibitedExactly(x: string)
    ensures IsProhibitedCategory(x) <==>
      x in {"riba", "interest", "gambling", "adult", "alcohol", "pork", "weapons", "drugs"}
  {
    assert x in ProhibitedSet() <==> x in Shariah.ProhibitedCategories;
  }

  /** Case and surrounding whitespace do not change the verdict. */
  lemma {:induction false} AllowedIgnoresCaseAndPadding(cat: string, shariahMode: bool)
    ensures IsCategoryAllowed(cat, shariahMode) == IsCategoryAllowed(Text.Normalize(cat), shariahMode)
  {
    Text.NormalizeIdempotent(cat);
  }

  /** A caller that lower-cases or trims the category before asking gets the
      same verdict: the gate's own normalisation absorbs either step. */
  lemma {:induction false} AllowedAfterLowerOrTrim(cat: string, shariahMode: bool)
    ensures IsCategoryAllowed(Text.Lower(cat), shariahMode) == IsCategoryAllowed(cat, shariahMode)
    ensures IsCategoryAllowed(Text.Trim(cat), shariahMode) == IsCategoryAllowed(cat, shariahMode)
  {
    Text.TrimLowerCommute(cat);
    Text.LowerIdempotent(Text.Trim(cat));
    Text.TrimFixesTrimmed(Text.Trim(cat));
  }

  /** Switching the mode on can only reject more: a category allowed with the
      mode on is allowed with it off. */
  lemma AllowedMonotoneInMode(cat: string)
    ensures IsCategoryAllowed(cat, true) ==> IsCategoryAllowed(cat, false)
  {
  }

  /** Every configured entry, written as it is, is rejected with the mode on. */
  lemma {:induction false} EveryEntryRejected()
    ensures forall i :: 0 <= i < |Shariah.ProhibitedCategories| ==>
      !IsCategoryAllowed(Shariah.ProhibitedCategories[i], true)
  {
    Shariah.EntriesNormal();
  }

  /** With the mode on, a category is rejected exactly when its normal form is
      one of the eight entries; any variant in case or padding of an entry is
      rejected, and anything whose normal form is not an entry passes. */
  lemma {:induction false} RejectedExactlyEntries(cat: string)
    ensures !IsCategoryAllowed(cat, true) <==>
      Text.Normalize(cat) in {"riba", "interest", "gambling", "adult", "alcohol", "pork", "weapons", "drugs"}
  {
    ProhibitedExactly(Text.Normalize(cat));
  }

  /** "Interest" and "INTEREST " are rejected with the mode on; "interest" is
      accepted with it off. */
  lemma {:induction false} InterestExamples()
    ensures !IsCategoryAllowed("Interest", true)
    ensures !IsCategoryAllowed("INTEREST ", true)
    ensures IsCategoryAllowed("interest", false)
  {
    NormalizeInterestVariants();
    RejectedExactlyEntries("Interest");
    RejectedExactlyEntries("INTEREST ");
  }

  lemma {:induction false} NormalizeInterestVariants()
    ensures Text.Normalize("Interest") == "interest"
    ensures Text.Normalize("INTEREST ") == "interest"
  {
    TrimCapitalised();
    TrimShouted();
    LowerExamples();
  }

  lemma TrimCapitalised()
    ensures Text.Trim("Interest") == "Interest"
  {
    Text.TrimFixesTrimmed("Interest");
  }

  lemma TrimShouted()
    ensures Text.Trim("INTEREST ") == "INTEREST"
  {
    assert "INTEREST " == "INTEREST" + [' '];
    Text.TrimOneTrailing("INTEREST", ' ');
  }

  lemma LowerExamples()
    ensures Text.Lower("Interest") == "interest"
    ensures Text.Lower("INTEREST") == "interest"
  {
    Text.LowerPointwise("Interest", "interest");
    Text.LowerPointwise("INTEREST", "interest");
  }

  /** Matching is by equality, not by substring: "interest rates" and "design"
      pass even with the mode on. */
  lemma {:induction false} SubstringsPass()
    ensures IsCategoryAllowed("interest rates", true)
    ensures IsCategoryAllowed("design", true)
  {
    NormalExampleRates();
    NormalExampleDesign();
    RejectedExactlyEntries("interest rates");
    RejectedExactlyEntries("design");
  }

  lemma NormalExampleRates()
    ensures Text.Normalize("interest rates") == "interest rates"
  {
    NormalExample("interest rates");
  }

  lemma NormalExampleDesign()
    ensures Text.Normalize("design") == "design"
  {
    NormalExample("design");
  }

  lemma NormalExample(cat: string)
    requires forall k :: 0 <= k < |cat| ==> 'a' <= cat[k] <= 'z' || (cat[k] == ' ' && 0 < k < |cat| - 1)
    ensures Text.Normalize(cat) == cat
  {
    Text.NormalizeFixesNormal(cat);
  }
}
