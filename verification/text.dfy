/** Python's `sub in s` on strings: substring containment. */
module Text {

  /** `sub` occurs in `s` starting at position `i`. */
  predicate OccursAt(s: string, sub: string, i: nat) {
    i + |sub| <= |s| && s[i..i + |sub|] == sub
  }

  /** Substring test, trying the start positions of `s` from left to right. */
  function Contains(s: string, sub: string): bool
    decreases |s|
  {
    if |sub| > |s| then false
    else if s[..|sub|] == sub then true
    else Contains(s[1..], sub)
  }

  /** Dropping the first character of `s` shifts every occurrence one place left. */
  lemma OccursAtShift(s: string, sub: string, i: nat)
    requires |s| > 0
    ensures OccursAt(s[1..], sub, i) <==> OccursAt(s, sub, i + 1)
  {
  }

  /** `Contains` holds exactly when `sub` occurs somewhere in `s`. */
  lemma {:induction false} ContainsIff(s: string, sub: string)
    ensures Contains(s, sub) <==> exists i: nat :: OccursAt(s, sub, i)
    decreases |s|
  {
    if |sub| > |s| {
      forall i: nat ensures !OccursAt(s, sub, i) { }
    } else if s[..|sub|] == sub {
      assert OccursAt(s, sub, 0);
    } else {
      assert |s| > 0;
      ContainsIff(s[1..], sub);
      assert !OccursAt(s, sub, 0);
      if Contains(s[1..], sub) {
        var i: nat :| OccursAt(s[1..], sub, i);
        OccursAtShift(s, sub, i);
      } else {
        forall j: nat | OccursAt(s, sub, j) ensures false {
          assert j > 0;
          OccursAtShift(s, sub, j - 1);
        }
      }
    }
  }
}
