/** The scheduler's list (`list.h`): a ring of items closed by an end marker, and the walk over it
    that gives every task its turn. */
module RoundRobin {
  /** `ListItem_t`. The end marker is one too; it has no owner. */
  class ListItem {
    var pxNext: ListItem?
    var pvOwner: object?

    constructor (owner: object?)
      ensures pvOwner == owner && pxNext == null
    {
      pvOwner, pxNext := owner, null;
    }
  }

  /** The position the walk moves to from `at` in a list of n items; n is that of the end marker. */
  function Next(n: nat, at: nat): (next: nat)
    requires n > 0
    ensures next < n
  {
    if at + 1 < n then at + 1 else 0
  }

  /** The position of the j-th turn, counting from 0, for a walk that starts at `at`. */
  function Turn(n: nat, at: nat, j: nat): (position: nat)
    requires n > 0
    ensures position < n
  {
    if j == 0 then Next(n, at) else Next(n, Turn(n, at, j - 1))
  }

  lemma TurnStep(n: nat, at: nat, j: nat)
    requires n > 0
    ensures Turn(n, at, j) == Next(n, if j == 0 then at else Turn(n, at, j - 1)) < n
  {
  }

  /** The first n turns go up to the last item and on from the first. */
  lemma {:induction false} TurnIs(n: nat, at: nat, j: nat)
    requires n > 0 && j < n
    ensures var first := Next(n, at);
            Turn(n, at, j) == if first + j < n then first + j else first + j - n
  {
    if j > 0 {
      TurnIs(n, at, j - 1);
    }
  }

  /** Turns from some turn on are those of a walk that starts there. */
  lemma {:induction false} TurnFrom(n: nat, at: nat, m: nat, j: nat)
    requires n > 0
    ensures Turn(n, at, m + 1 + j) == Turn(n, Turn(n, at, m), j)
  {
    if j > 0 {
      TurnFrom(n, at, m, j - 1);
    }
  }

  /** Turn k + n is turn k again. */
  lemma TurnsRepeat(n: nat, at: nat, k: nat)
    requires n > 0
    ensures Turn(n, at, k + n) == Turn(n, at, k)
  {
    TurnFrom(n, at, k, n - 1);
    TurnIs(n, Turn(n, at, k), n - 1);
  }

  /** The turn, among the n from turn m on, in which position p comes up. */
  function TurnOf(n: nat, at: nat, m: nat, p: nat): (j: nat)
    requires n > 0 && p < n
    ensures j < n
  {
    var first := Turn(n, at, m);
    if first <= p then p - first else p - first + n
  }

  /** Fairness: among any n turns in a row each position comes up in exactly one. */
  lemma EachOnce(n: nat, at: nat, m: nat, p: nat, j: nat)
    requires n > 0 && p < n && j < n
    ensures Turn(n, at, m + j) == p <==> j == TurnOf(n, at, m, p)
  {
    if j > 0 {
      TurnFrom(n, at, m, j - 1);
      TurnIs(n, Turn(n, at, m), j - 1);
    }
  }

  /** `List_t`. */
  class List {
    var uxNumberOfItems: nat
    var pxIndex: ListItem
    const xListEnd: ListItem
    ghost var ring: seq<ListItem>
    ghost var at: nat

    /** The items in ring order, then the marker; each points to the next and the marker to the
        first, and `at` is where `pxIndex` stands. */
    ghost predicate Valid()
      reads this, ring, xListEnd
    {
      && uxNumberOfItems == |ring|
      && (forall i, j :: 0 <= i < j < |ring| ==> ring[i] != ring[j])
      && xListEnd !in ring
      && (forall i {:trigger ring[i].pxNext} :: 0 <= i < |ring| ==>
            ring[i].pxNext == if i + 1 < |ring| then ring[i + 1] else xListEnd)
      && xListEnd.pxNext == (if ring == [] then xListEnd else ring[0])
      && at <= |ring| && pxIndex == if at == |ring| then xListEnd else ring[at]
    }

    /** An empty list: the marker points to itself. */
    constructor ()
      ensures Valid() && ring == []
    {
      var marker := new ListItem(null);
      marker.pxNext := marker;
      xListEnd, pxIndex := marker, marker;
      uxNumberOfItems, ring, at := 0, [], 0;
    }

    /** `listGET_OWNER_OF_NEXT_ENTRY`, on a list that is not empty. */
    method GetOwnerOfNextEntry() returns (pxTCB: object?)
      requires Valid() && ring != []
      modifies `pxIndex, `at
      ensures Valid() && at == Next(|ring|, old(at))
      ensures pxIndex == ring[at] && pxIndex != xListEnd && pxTCB == ring[at].pvOwner
    {
      pxIndex := pxIndex.pxNext;
      if pxIndex == xListEnd {
        pxIndex := pxIndex.pxNext;
      }
      pxTCB := pxIndex.pvOwner;
      at := Next(|ring|, at);
    }

    /** `k` turns in a row: the owners that get them. */
    method TakeTurns(k: nat) returns (owners: seq<object?>)
      requires Valid() && ring != []
      modifies `pxIndex, `at
      ensures Valid() && |owners| == k
      ensures forall j :: 0 <= j < k ==> owners[j] == ring[Turn(|ring|, old(at), j)].pvOwner
      ensures at == if k == 0 then old(at) else Turn(|ring|, old(at), k - 1)
    {
      hide *;
      ghost var n, start := |ring|, at;
      owners := [];
      for i := 0 to k
        invariant Valid() && ring == old(ring) && |owners| == i
        invariant at == if i == 0 then start else Turn(n, start, i - 1)
        invariant forall j :: 0 <= j < i ==> owners[j] == ring[Turn(n, start, j)].pvOwner
      {
        TurnStep(n, start, i);
        var owner := GetOwnerOfNextEntry();
        owners := owners + [owner];
      }
    }

    /** One round: as many turns as there are items. The owners come in ring order, starting behind
        the point where the walk stood, and each item has had its turn exactly once. */
    method TakeRound() returns (owners: seq<object?>)
      requires Valid() && ring != []
      modifies `pxIndex, `at
      ensures Valid() && |owners| == |ring|
      ensures var n, first := |ring|, Next(|ring|, old(at));
              forall j :: 0 <= j < n ==>
                owners[j] == ring[if first + j < n then first + j else first + j - n].pvOwner
      ensures old(at) < |ring| ==> at == old(at) && pxIndex == old(pxIndex)
    {
      ghost var n, start := |ring|, at;
      owners := TakeTurns(uxNumberOfItems);
      forall j | 0 <= j < n
        ensures Turn(n, start, j) == if Next(n, start) + j < n then Next(n, start) + j else Next(n, start) + j - n
      {
        TurnIs(n, start, j);
      }
    }
  }
}
