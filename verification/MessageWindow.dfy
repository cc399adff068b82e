/** The duplicate filter of src/wsd_server.cpp: a set of known ids and a deque of iterators into it. */
module MessageWindow {
  const MAX_KNOWN: nat := 50

  // ----- reference definition, on the list of all ids accepted so far -----

  function Recent<T>(accepted: seq<T>): seq<T> {
    if |accepted| <= MAX_KNOWN then accepted else accepted[|accepted| - MAX_KNOWN..]
  }

  /** An id is rejected exactly when it is among the last 50 accepted ones. */
  function Accept<T(==)>(accepted: seq<T>, id: T): seq<T> {
    if id in Recent(accepted) then accepted else accepted + [id]
  }

  function AcceptAll<T(==)>(accepted: seq<T>, ids: seq<T>): seq<T>
    decreases |ids|
  {
    if ids == [] then accepted else AcceptAll(Accept(accepted, ids[0]), ids[1..])
  }

  ghost predicate Spread<T>(accepted: seq<T>) {
    forall i, j :: 0 <= i < j < |accepted| && accepted[i] == accepted[j] ==> j - i - 1 >= 50
  }

  lemma LateIsRecent<T>(accepted: seq<T>, i: nat)
    requires |accepted| - MAX_KNOWN <= i < |accepted|
    ensures accepted[i] in Recent(accepted)
  {
    assert Recent(accepted)[i - (|accepted| - |Recent(accepted)|)] == accepted[i];
  }

  lemma AcceptSpreads<T>(accepted: seq<T>, id: T)
    requires Spread(accepted)
    ensures Spread(Accept(accepted, id))
  {
    if id !in Recent(accepted) {
      forall i | 0 <= i < |accepted| && accepted[i] == id
        ensures |accepted| - i - 1 >= MAX_KNOWN
      {
        if |accepted| - i <= MAX_KNOWN {
          LateIsRecent(accepted, i);
        }
      }
    }
  }

  /** Over any run, two acceptances of one id have at least 50 other acceptances between them. */
  lemma {:induction false} AcceptancesSpread<T>(accepted: seq<T>, ids: seq<T>)
    requires Spread(accepted)
    ensures Spread(AcceptAll(accepted, ids))
    decreases |ids|
  {
    if ids != [] {
      AcceptSpreads(accepted, ids[0]);
      AcceptancesSpread(Accept(accepted, ids[0]), ids[1..]);
    }
  }

  lemma {:induction false} AcceptedStay<T>(accepted: seq<T>, ids: seq<T>)
    ensures accepted <= AcceptAll(accepted, ids)
    decreases |ids|
  {
    if ids != [] {
      AcceptedStay(Accept(accepted, ids[0]), ids[1..]);
    }
  }

  /**
   However often an id comes again meanwhile, it is rejected until exactly 50 others have been
   accepted after it: a rejected repeat does not refresh its place.
   */
  lemma RepeatDoesNotRefresh<T>(accepted: seq<T>, id: T, ids: seq<T>)
    requires Spread(accepted) && id !in Recent(accepted)
    ensures var all := AcceptAll(accepted + [id], ids); var others := |all| - |accepted| - 1;
            && others >= 0
            && (others < 50 ==> id in Recent(all))
            && (others == 50 ==> id !in Recent(all))
  {
    var all := AcceptAll(accepted + [id], ids);
    AcceptSpreads(accepted, id);
    AcceptancesSpread(accepted + [id], ids);
    AcceptedStay(accepted + [id], ids);
    var i := |accepted|;
    assert all[i] == (accepted + [id])[i] == id;
    var others := |all| - i - 1;
    if others < MAX_KNOWN {
      LateIsRecent(all, i);
    } else if others == MAX_KNOWN {
      forall k | 0 <= k < MAX_KNOWN
        ensures Recent(all)[k] != id
      {
        assert Recent(all)[k] == all[i + 1 + k];
      }
    }
  }

  lemma RecentIsDistinct<T>(accepted: seq<T>)
    requires Spread(accepted)
    ensures forall i, j :: 0 <= i < j < |Recent(accepted)| ==> Recent(accepted)[i] != Recent(accepted)[j]
  {
    var d := |accepted| - |Recent(accepted)|;
    forall i, j | 0 <= i < j < |Recent(accepted)|
      ensures Recent(accepted)[i] != Recent(accepted)[j]
    {
      assert Recent(accepted)[i] == accepted[d + i] && Recent(accepted)[j] == accepted[d + j];
    }
  }

  // ----- the set and the deque -----

  ghost function Reverse<T>(s: seq<T>): (r: seq<T>)
    ensures |r| == |s|
    ensures forall k :: 0 <= k < |s| ==> r[k] == s[|s| - 1 - k]
  {
    seq(|s|, k requires 0 <= k < |s| => s[|s| - 1 - k])
  }

  ghost function Elements<T>(s: seq<T>): set<T> {
    set x | x in s
  }

  class KnownMessages<T(==)> {
    var ids: set<T>
    var lru: seq<T>  // front first; an iterator into the set stands for the element it points at
    ghost var accepted: seq<T>

    ghost predicate Valid()
      reads this
    {
      Window(accepted, lru, ids)
    }

    constructor ()
      ensures Valid() && accepted == []
    {
      ids, lru, accepted := {}, [], [];
    }

    method CheckNewMessageId(id: T) returns (isNew: bool)
      requires Valid()
      modifies this
      ensures Valid()
      ensures isNew <==> id !in Recent(old(accepted))
      ensures accepted == Accept(old(accepted), id)
      ensures |lru| <= MAX_KNOWN && |ids| == |lru|
    {
      hide Spread, Recent, Accept, Reverse, Elements;
      KnownExactly(accepted, lru, ids, id);
      if id in ids {
        return false;
      }
      NextWindow(accepted, lru, ids, id);
      ids := ids + {id};
      if |lru| == MAX_KNOWN {
        ids := ids - {lru[|lru| - 1]};
        lru := lru[..|lru| - 1];
      }
      lru := [id] + lru;
      accepted := accepted + [id];
      isNew := true;
    }
  }

  ghost predicate Window<T>(accepted: seq<T>, lru: seq<T>, ids: set<T>) {
    Spread(accepted) && lru == Reverse(Recent(accepted)) && ids == Elements(lru)
  }

  lemma KnownExactly<T>(accepted: seq<T>, lru: seq<T>, ids: set<T>, id: T)
    requires Window(accepted, lru, ids)
    ensures id in ids <==> id in Recent(accepted)
    ensures Accept(accepted, id) == if id in ids then accepted else accepted + [id]
    ensures |lru| <= MAX_KNOWN && |ids| == |lru|
    ensures forall i, j :: 0 <= i < j < |lru| ==> lru[i] != lru[j]
  {
    ReverseMembers(Recent(accepted));
    RecentIsDistinct(accepted);
    DistinctSize(lru, ids);
  }

  /** What becomes of set and deque when a new id comes in. */
  lemma NextWindow<T>(accepted: seq<T>, lru: seq<T>, ids: set<T>, id: T)
    requires Window(accepted, lru, ids) && id !in ids
    ensures var full := |lru| == MAX_KNOWN;
            var lru' := [id] + (if full then lru[..|lru| - 1] else lru);
            var ids' := if full then ids + {id} - {lru[|lru| - 1]} else ids + {id};
            Window(accepted + [id], lru', ids') && |lru'| <= MAX_KNOWN && |ids'| == |lru'|
  {
    KnownExactly(accepted, lru, ids, id);
    AcceptSpreads(accepted, id);
    NextRecent(accepted, lru, id);
    NextElements(lru, ids, id);
    hide Spread, Recent, Accept, Reverse, Elements;
    var kept := if |lru| == MAX_KNOWN then lru[..|lru| - 1] else lru;
    KnownExactly(accepted + [id], [id] + kept, Elements([id] + kept), id);
  }

  lemma NextElements<T>(lru: seq<T>, ids: set<T>, id: T)
    requires ids == Elements(lru) && id !in ids
    requires forall i, j :: 0 <= i < j < |lru| ==> lru[i] != lru[j]
    ensures Elements([id] + lru) == ids + {id}
    ensures lru != [] ==> Elements([id] + lru[..|lru| - 1]) == ids + {id} - {lru[|lru| - 1]}
  {
    ElementsCons(id, lru);
    if lru != [] {
      OthersWithoutLast(lru, ids);
      ElementsCons(id, lru[..|lru| - 1]);
      InElements(lru, |lru| - 1);
    }
  }

  lemma InElements<T>(s: seq<T>, i: nat)
    requires i < |s|
    ensures s[i] in Elements(s)
  {
  }

  lemma NextRecent<T>(accepted: seq<T>, lru: seq<T>, id: T)
    requires lru == Reverse(Recent(accepted))
    ensures [id] + (if |lru| == MAX_KNOWN then lru[..|lru| - 1] else lru) == Reverse(Recent(accepted + [id]))
  {
    RecentAfter(accepted, id);
  }

  lemma ElementsCons<T>(id: T, kept: seq<T>)
    ensures Elements([id] + kept) == {id} + Elements(kept)
  {
  }

  lemma ReverseMembers<T>(s: seq<T>)
    ensures forall x :: x in Reverse(s) <==> x in s
  {
    forall x | x in s
      ensures x in Reverse(s)
    {
      var k :| 0 <= k < |s| && s[k] == x;
      assert Reverse(s)[|s| - 1 - k] == x;
    }
  }

  lemma RecentAfter<T>(accepted: seq<T>, id: T)
    ensures var was := Recent(accepted);
            Recent(accepted + [id]) == (if |was| == MAX_KNOWN then was[1..] else was) + [id]
  {
  }

  lemma OthersWithoutLast<T>(s: seq<T>, elements: set<T>)
    requires s != [] && elements == Elements(s)
    requires forall i, j :: 0 <= i < j < |s| ==> s[i] != s[j]
    ensures elements - {s[|s| - 1]} == Elements(s[..|s| - 1])
  {
  }

  lemma {:induction false} DistinctSize<T>(s: seq<T>, elements: set<T>)
    requires elements == Elements(s)
    requires forall i, j :: 0 <= i < j < |s| ==> s[i] != s[j]
    ensures |elements| == |s|
  {
    if s != [] {
      OthersWithoutLast(s, elements);
      DistinctSize(s[..|s| - 1], elements - {s[|s| - 1]});
    }
  }
}
