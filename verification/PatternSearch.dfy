/** Searching for byte patterns in a stream through a window that keeps only the last few bytes. */
module PatternSearch {

  newtype Byte = x: int | 0 <= x < 256

  predicate OccursAt(pattern: seq<Byte>, s: seq<Byte>, i: nat) {
    i + |pattern| <= |s| && s[i..i + |pattern|] == pattern
  }

  predicate Occurs(pattern: seq<Byte>, s: seq<Byte>) {
    exists i | 0 <= i <= |s| :: OccursAt(pattern, s, i)
  }

  /** The last `n` elements, or all of them when there are fewer. */
  function Tail(s: seq<Byte>, n: nat): (tail: seq<Byte>)
    ensures n == 0 || s == [] ==> tail == []
  {
    if |s| <= n then s else s[|s| - n..]
  }

  /** A pattern of at most `n + 1` bytes lies in the extended stream exactly when it was there before
      or lies in the last `n` bytes seen followed by the new block. */
  lemma WindowSuffices(pattern: seq<Byte>, seen: seq<Byte>, block: seq<Byte>, n: nat)
    requires |pattern| <= n + 1
    ensures Occurs(pattern, seen + block) <==>
              Occurs(pattern, seen) || Occurs(pattern, Tail(seen, n) + block)
  {
    var window, whole := Tail(seen, n) + block, seen + block;
    var skipped := |whole| - |window|;
    assert window == whole[skipped..];
    forall i: nat | i <= |whole| && OccursAt(pattern, whole, i)
      ensures Occurs(pattern, seen) || Occurs(pattern, window)
    {
      if i < skipped {
        assert OccursAt(pattern, seen, i);
      } else {
        assert OccursAt(pattern, window, i - skipped);
      }
    }
    forall i: nat | i <= |seen| && OccursAt(pattern, seen, i) ensures Occurs(pattern, whole) {
      assert OccursAt(pattern, whole, i);
    }
    forall i: nat | i <= |window| && OccursAt(pattern, window, i) ensures Occurs(pattern, whole) {
      assert OccursAt(pattern, whole, skipped + i);
    }
  }

  lemma TailOfWindow(seen: seq<Byte>, block: seq<Byte>, n: nat)
    ensures Tail(Tail(seen, n) + block, n) == Tail(seen + block, n)
  {
  }

  /** One byte less of overlap would not do: a two-byte pattern split between two reads is missed. */
  lemma ShorterOverlapMisses()
    ensures var pattern: seq<Byte> := [7, 8];
            Occurs(pattern, [7] + [8]) && !Occurs(pattern, [7]) && !Occurs(pattern, Tail([7], 0) + [8])
  {
    var pattern: seq<Byte> := [7, 8];
    assert OccursAt(pattern, [7] + [8], 0);
  }
}
