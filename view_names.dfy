/**
 * The temporary-view naming discipline of RAXNode: a counter, reset once per
 * evaluated expression, whose successive values name the views
 * RA_TMP_VIEW_1, RA_TMP_VIEW_2, ...
 */
module ViewNames {
  import opened Wrappers
  import opened Text

  const Prefix: string := "RA_TMP_VIEW_"

  /** The name generated when the counter reaches `k`. */
  function ViewName(k: nat): string {
    Prefix + NatToString(k)
  }

  /** The counter value a generated name was made from, if it is one. */
  function ViewNumber(name: string): Option<nat> {
    if StartsWith(name, Prefix) && |name| > |Prefix| && IsDigits(name[|Prefix|..])
    then Some(DigitsValue(name[|Prefix|..]))
    else None
  }

  /** Every generated name can be read back as the counter value it was made from. */
  lemma ViewNumberOfViewName(k: nat)
    ensures ViewNumber(ViewName(k)) == Some(k)
  {
    assert ViewName(k)[..|Prefix|] == Prefix;
    assert ViewName(k)[|Prefix|..] == NatToString(k);
    DigitsValueOfNatToString(k);
  }

  /** Distinct counter values give distinct view names. */
  lemma ViewNameInjective(a: nat, b: nat)
    ensures ViewName(a) == ViewName(b) <==> a == b
  {
    ViewNumberOfViewName(a);
    ViewNumberOfViewName(b);
  }

  /** A generated name is an SQL identifier: no blank, comma or parenthesis can occur in it. */
  lemma ViewNameIsWord(k: nat)
    ensures IsWord(ViewName(k)) && |ViewName(k)| > |Prefix|
  {
    var d := NatToString(k);
    assert forall i :: |Prefix| <= i < |ViewName(k)| ==> ViewName(k)[i] == d[i - |Prefix|];
  }

  /**
   * RAXNode's static `_viewGeneratedCount`, made an explicit object that the
   * node constructor draws names from.
   */
  class ViewNameGenerator {
    var count: nat

    constructor ()
      ensures count == 0
    {
      count := 0;
    }

    /** resetViewNameGenerator: the next name generated is RA_TMP_VIEW_1. */
    method Reset()
      modifies this
      ensures count == 0
    {
      count := 0;
    }

    /** generateViewName: advance the counter and name a view after its new value. */
    method Generate() returns (name: string)
      modifies this
      ensures count == old(count) + 1
      ensures name == ViewName(count)
    {
      count := count + 1;
      name := Prefix + NatToString(count);
    }
  }
}
