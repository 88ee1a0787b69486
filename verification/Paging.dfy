/**
 * Fetching a history page by page: ask from an index, then from the last index of the payload
 * plus one, until a payload comes back empty.
 */
module Paging {
  import opened MachineInts
  import opened Tables
  import opened CatchUpCodec

  /** The request after a non-empty page. */
  function NextSince(page: seq<StoredMessage>): uint64
    requires page != []
  {
    WrapAdd(IndexOrZero(page[|page| - 1]), 1)
  }

  /** All pages from `since`, or None when `fuel` pages were not enough. */
  function Pages(rows: seq<Row>, room: string, since: uint64, limit: int, fuel: nat): Option<seq<StoredMessage>>
    decreases fuel
  {
    var page := MessagesSince(rows, room, since, limit);
    if page == [] then Some([])
    else if fuel == 0 then None
    else
      match Pages(rows, room, NextSince(page), limit, fuel - 1)
      case None => None
      case Some(rest) => Some(page + rest)
  }

  ghost predicate Terminates(rows: seq<Row>, room: string, since: uint64, limit: int) {
    exists fuel: nat :: Pages(rows, room, since, limit, fuel).Some?
  }

  const LAST_COLUMN: int64 := TWO_63 - 1

  ghost predicate SameRows(a: seq<Row>, b: seq<Row>) {
    forall r :: r in a <==> r in b
  }

  lemma NonEmptyHasRow(b: seq<Row>)
    requires b != []
    ensures exists r :: r in b
  {
    assert b[0] in b;
  }

  lemma SameLastRow(a: seq<Row>, b: seq<Row>)
    requires StrictlyChained(a) && StrictlyChained(b) && SameRows(a, b) && a != [] && b != []
    ensures a[|a| - 1] == b[|b| - 1]
  {
    var m, n := |a| - 1, |b| - 1;
    assert a[m] in b && b[n] in a;
    var i :| 0 <= i < |a| && a[i] == b[n];
    var j :| 0 <= j < |b| && b[j] == a[m];
  }

  lemma ButLastRow(a: seq<Row>, r: Row)
    requires StrictlyChained(a) && a != []
    ensures r in a[..|a| - 1] <==> r in a && r != a[|a| - 1]
  {
    var m := |a| - 1;
    assert a == a[..m] + [a[m]];
    if r in a[..m] {
      var i :| 0 <= i < m && a[..m][i] == r;
      assert a[i] == r;
    }
  }

  /** Two strictly increasing lists with the same rows are the same list. */
  lemma {:induction false} SameRowsSameList(a: seq<Row>, b: seq<Row>)
    requires StrictlyChained(a) && StrictlyChained(b) && SameRows(a, b)
    ensures a == b
    decreases |a|
  {
    if a == [] {
      if b != [] {
        NonEmptyHasRow(b);
        assert false;
      }
    } else if b == [] {
      NonEmptyHasRow(a);
      assert false;
    } else {
      var m, n := |a| - 1, |b| - 1;
      SameLastRow(a, b);
      forall r ensures r in a[..m] <==> r in b[..n] {
        ButLastRow(a, r);
        ButLastRow(b, r);
      }
      SameRowsSameList(a[..m], b[..n]);
      assert a == a[..m] + [a[m]] && b == b[..n] + [b[n]];
    }
  }

  /** Asking from just above the k-th row leaves exactly the rows after it. */
  lemma RestAfter(rows: seq<Row>, room: string, since: int64, k: nat)
    requires Consistent(rows) && k < |Select(rows, ChainedSince(room, since))|
    requires Select(rows, ChainedSince(room, since))[k].chain.Some?
    requires Select(rows, ChainedSince(room, since))[k].chain.value < LAST_COLUMN
    ensures Select(rows, ChainedSince(room, Select(rows, ChainedSince(room, since))[k].chain.value + 1))
            == Select(rows, ChainedSince(room, since))[k + 1..]
  {
    var all := Select(rows, ChainedSince(room, since));
    var next := all[k].chain.value + 1;
    var rest := Select(rows, ChainedSince(room, next));
    ChainedRowsIncrease(rows, room, since);
    ChainedRowsIncrease(rows, room, next);
    SelectMembers(rows, ChainedSince(room, since), all[k]);
    forall r ensures r in rest <==> r in all[k + 1..] {
      SelectMembers(rows, ChainedSince(room, since), r);
      SelectMembers(rows, ChainedSince(room, next), r);
      if r in rest {
        var j :| 0 <= j < |all| && all[j] == r;
        assert j > k;
        assert all[k + 1..][j - k - 1] == r;
      }
    }
    SameRowsSameList(rest, all[k + 1..]);
  }

  lemma NextSinceIsNextColumn(x: int64)
    requires x < LAST_COLUMN
    ensures ToInt64(WrapAdd(ToUint64(x), 1)) == x + 1
  {
  }

  /** A page takes the first rows, and the next request selects exactly the others. */
  lemma PageAndRest(rows: seq<Row>, room: string, since: uint64, limit: int) returns (k: nat)
    requires Consistent(rows) && limit > 0 && !Holds(rows, room, LAST_COLUMN)
    requires Select(rows, ChainedSince(room, ToInt64(since))) != []
    ensures var all := Select(rows, ChainedSince(room, ToInt64(since)));
            var page := MessagesSince(rows, room, since, limit);
            && k < |all| && page != [] && ScannedAll(all) == page + ScannedAll(all[k + 1..])
            && Select(rows, ChainedSince(room, ToInt64(NextSince(page)))) == all[k + 1..]
  {
    var all := Select(rows, ChainedSince(room, ToInt64(since)));
    var page := MessagesSince(rows, room, since, limit);
    k := |page| - 1;
    SelectMembers(rows, ChainedSince(room, ToInt64(since)), all[k]);
    assert all[k] in rows && all[k].chain.value != LAST_COLUMN;
    NextSinceIsNextColumn(all[k].chain.value);
    RestAfter(rows, room, ToInt64(since), k);
    assert ScannedAll(all) == ScannedAll(all[..k + 1]) + ScannedAll(all[k + 1..]);
    assert page == ScannedAll(all[..k + 1]);
  }

  /** Without a row at the last column value, the pages are all rows from `since` on, once each and in order. */
  lemma {:induction false} PagesCoverTheRest(
    rows: seq<Row>, room: string, since: uint64, limit: int, fuel: nat, all: seq<Row>)
    requires Consistent(rows) && limit > 0 && !Holds(rows, room, LAST_COLUMN)
    requires all == Select(rows, ChainedSince(room, ToInt64(since))) && fuel >= |all|
    ensures Pages(rows, room, since, limit, fuel) == Some(ScannedAll(all))
    decreases fuel
  {
    if all == [] {
      NoPagesLeft(rows, room, since, limit, fuel);
    } else {
      var k := PageAndRest(rows, room, since, limit);
      var next := NextSince(MessagesSince(rows, room, since, limit));
      PagesCoverTheRest(rows, room, next, limit, fuel - 1, all[k + 1..]);
      OnePageMore(rows, room, since, limit, fuel, ScannedAll(all[k + 1..]));
    }
  }

  lemma NoPagesLeft(rows: seq<Row>, room: string, since: uint64, limit: int, fuel: nat)
    requires Select(rows, ChainedSince(room, ToInt64(since))) == []
    ensures Pages(rows, room, since, limit, fuel) == Some(ScannedAll([]))
  {
    assert MessagesSince(rows, room, since, limit) == [] == ScannedAll([]);
  }

  lemma OnePageMore(rows: seq<Row>, room: string, since: uint64, limit: int, fuel: nat, rest: seq<StoredMessage>)
    requires fuel > 0 && MessagesSince(rows, room, since, limit) != []
    requires Pages(rows, room, NextSince(MessagesSince(rows, room, since, limit)), limit, fuel - 1) == Some(rest)
    ensures Pages(rows, room, since, limit, fuel) == Some(MessagesSince(rows, room, since, limit) + rest)
  {
  }

  lemma RowMeansPage(rows: seq<Row>, room: string, since: uint64, limit: int)
    requires limit > 0 && Holds(rows, room, LAST_COLUMN)
    ensures MessagesSince(rows, room, since, limit) != []
  {
    var i :| 0 <= i < |rows| && rows[i].body.roomID == room && rows[i].chain == Some(LAST_COLUMN);
    SelectMembers(rows, ChainedSince(room, ToInt64(since)), rows[i]);
  }

  /** With one, every page is non-empty: 2^63 becomes the smallest column value and paging starts over. */
  lemma {:induction false} LastColumnNeverEnds(rows: seq<Row>, room: string, since: uint64, limit: int, fuel: nat)
    requires limit > 0 && Holds(rows, room, LAST_COLUMN)
    ensures Pages(rows, room, since, limit, fuel) == None
    decreases fuel
  {
    RowMeansPage(rows, room, since, limit);
    var page := MessagesSince(rows, room, since, limit);
    if fuel > 0 {
      LastColumnNeverEnds(rows, room, NextSince(page), limit, fuel - 1);
    }
  }

  /**
   * Paging ends exactly when the room has no row at index 2^63-1; when it ends, it has visited each
   * row from `since` on exactly once, in chain order.
   */
  lemma PagingIsComplete(rows: seq<Row>, room: string, since: uint64, limit: int)
    requires Consistent(rows) && limit > 0
    ensures Terminates(rows, room, since, limit) <==> !Holds(rows, room, LAST_COLUMN)
    ensures StrictlyChained(Select(rows, ChainedSince(room, ToInt64(since))))
    ensures forall fuel: nat :: Pages(rows, room, since, limit, fuel).Some? ==>
              Pages(rows, room, since, limit, fuel).value
              == ScannedAll(Select(rows, ChainedSince(room, ToInt64(since))))
  {
    var all := Select(rows, ChainedSince(room, ToInt64(since)));
    var n := |all|;
    ChainedRowsIncrease(rows, room, ToInt64(since));
    if Holds(rows, room, LAST_COLUMN) {
      forall fuel: nat ensures Pages(rows, room, since, limit, fuel) == None {
        LastColumnNeverEnds(rows, room, since, limit, fuel);
      }
    } else {
      PagesCoverTheRest(rows, room, since, limit, n, all);
      forall fuel: nat | Pages(rows, room, since, limit, fuel).Some?
        ensures Pages(rows, room, since, limit, fuel).value
                == ScannedAll(Select(rows, ChainedSince(room, ToInt64(since))))
      {
        MoreFuelSamePages(rows, room, since, limit, fuel, fuel + n);
        PagesCoverTheRest(rows, room, since, limit, fuel + n, all);
      }
    }
  }

  lemma {:induction false} MoreFuelSamePages(
    rows: seq<Row>, room: string, since: uint64, limit: int, fuel: nat, more: nat)
    requires fuel <= more && Pages(rows, room, since, limit, fuel).Some?
    ensures Pages(rows, room, since, limit, more) == Pages(rows, room, since, limit, fuel)
    decreases fuel
  {
    var page := MessagesSince(rows, room, since, limit);
    if page != [] {
      MoreFuelSamePages(rows, room, NextSince(page), limit, fuel - 1, more - 1);
    }
  }
}
