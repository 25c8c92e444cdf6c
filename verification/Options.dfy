/** The absent-or-present result the source spells `T | undefined`, and facts about lists and sets. */
module Options {
  datatype Option<+T> = None | Some(value: T) {
    function GetOr(default: T): T {
      match this
      case Some(v) => v
      case None => default
    }
  }

  lemma ConcatAssoc<T>(a: seq<T>, b: seq<T>, c: seq<T>)
    ensures a + b + c == a + (b + c)
  {
  }

  lemma SameSizeIsAll<T>(a: set<T>, b: set<T>)
    requires a <= b && |a| == |b|
    ensures a == b
  {
    assert b == a + (b - a);
    assert |b| == |a| + |b - a|;
  }

  // ---- Parts of a list, in order ----

  /** The part is the elements of the list at these places, in order. */
  ghost predicate Picks<T(!new)>(part: seq<T>, whole: seq<T>, at: seq<nat>) {
    && |at| == |part|
    && (forall k :: 0 <= k < |at| ==> at[k] < |whole| && part[k] == whole[at[k]])
    && (forall i, j :: 0 <= i < j < |at| ==> at[i] < at[j])
  }

  function Shifted(at: seq<nat>, n: nat): (moved: seq<nat>)
    ensures |moved| == |at| && forall k :: 0 <= k < |at| ==> moved[k] == at[k] + n
  {
    seq(|at|, k requires 0 <= k < |at| => at[k] + n)
  }

  /** The places once an element is put in front, which is taken or not. */
  function InFront(taken: bool, at: seq<nat>): seq<nat> {
    (if taken then [0] else []) + Shifted(at, 1)
  }

  lemma InFrontMember(taken: bool, at: seq<nat>, k: nat)
    ensures k in InFront(taken, at) <==> if k == 0 then taken else k - 1 in at
  {
    var moved := Shifted(at, 1);
    assert 0 !in moved;
    if k > 0 && k in moved {
      var i :| 0 <= i < |moved| && moved[i] == k;
      assert at[i] == k - 1;
    }
    if k > 0 && k - 1 in at {
      var i :| 0 <= i < |at| && at[i] == k - 1;
      assert moved[i] == k;
    }
  }

  /** An element in front, taken or passed over. */
  lemma PicksInFront<T(!new)>(part: seq<T>, whole: seq<T>, at: seq<nat>, taken: bool)
    requires whole != [] && Picks(part, whole[1..], at)
    ensures Picks((if taken then [whole[0]] else []) + part, whole, InFront(taken, at))
  {
    var moved := Shifted(at, 1);
    forall k | 0 <= k < |moved| ensures moved[k] < |whole| && part[k] == whole[moved[k]] {
      assert whole[1..][at[k]] == whole[moved[k]];
    }
    var all := InFront(taken, at);
    var n := if taken then 1 else 0;
    forall i, j | 0 <= i < j < |all| ensures all[i] < all[j] {
      assert all[j] == moved[j - n];
      assert i >= n ==> all[i] == moved[i - n];
    }
  }

  lemma PlacesBelow<T(!new)>(part: seq<T>, whole: seq<T>, at: seq<nat>)
    requires Picks(part, whole, at)
    ensures forall k :: k in at ==> k < |whole|
  {
  }

  /** An element at the end, taken or passed over. */
  lemma PicksAtEnd<T(!new)>(part: seq<T>, whole: seq<T>, at: seq<nat>, taken: bool)
    requires whole != [] && Picks(part, whole[..|whole| - 1], at)
    ensures Picks(part + if taken then [whole[|whole| - 1]] else [], whole, at + if taken then [|whole| - 1] else [])
  {
    PlacesBelow(part, whole[..|whole| - 1], at);
    assert part + [] == part && at + [] == at;
  }
}
