/**
 readdir by pages. The kernel asks again with the number of entries it has got so far;
 each call lists the directory anew and skips so many.
 */
module Paging {
  import opened Namespace

  /** How far a call gets in a listing of so many entries. */
  function Reach(count: nat, offset: nat, room: nat): nat
    requires offset <= count
  {
    if offset + room < count then offset + room else count
  }

  /**
   The entries of one call, of which so many fit into its buffer. A negative offset, read
   as an unsigned number, is past every listing.
   */
  function Page(entries: seq<DirEntry>, offset: int, room: nat): seq<DirEntry> {
    if 0 <= offset <= |entries| then entries[offset..Reach(|entries|, offset, room)] else []
  }

  /** Call after call on one listing, with buffers of any sizes, each from where the one before got. */
  function Pages(entries: seq<DirEntry>, offset: nat, rooms: seq<nat>): seq<DirEntry>
    requires offset <= |entries|
    decreases |rooms|
  {
    if rooms == [] then []
    else Page(entries, offset, rooms[0]) + Pages(entries, Reach(|entries|, offset, rooms[0]), rooms[1..])
  }

  function Total(rooms: seq<nat>): nat {
    if rooms == [] then 0 else rooms[0] + Total(rooms[1..])
  }

  lemma JoinSlices(entries: seq<DirEntry>, i: nat, j: nat, k: nat)
    requires i <= j <= k <= |entries|
    ensures entries[i..j] + entries[j..k] == entries[i..k]
  {
  }

  /** While the directory stays as it is, the calls deliver it in order as far as their buffers reach. */
  lemma {:induction false} PagesInOrder(entries: seq<DirEntry>, offset: nat, rooms: seq<nat>)
    requires offset <= |entries|
    ensures Pages(entries, offset, rooms) == entries[offset..Reach(|entries|, offset, Total(rooms))]
    decreases |rooms|
  {
    if rooms != [] {
      var next := Reach(|entries|, offset, rooms[0]);
      PagesInOrder(entries, next, rooms[1..]);
      JoinSlices(entries, offset, next, Reach(|entries|, offset, Total(rooms)));
    }
  }

  /** When a call with room for an entry delivers none, where the kernel stops, every entry was delivered once. */
  lemma PagesDeliverAll(entries: seq<DirEntry>, rooms: seq<nat>, room: nat)
    requires room > 0
    ensures Page(entries, |Pages(entries, 0, rooms)|, room) == [] <==> Pages(entries, 0, rooms) == entries
  {
    PagesInOrder(entries, 0, rooms);
  }

  // ----- A directory that changes between two calls -----

  ghost predicate Distinct(entries: seq<DirEntry>) {
    forall i, j | 0 <= i < j < |entries| :: entries[i] != entries[j]
  }

  /** Delivered: so many of the listing before, and then all that follows as many of the listing after. */
  function AcrossChange(before: seq<DirEntry>, after: seq<DirEntry>, k: nat): seq<DirEntry>
    requires k <= |before|
  {
    before[..k] + Page(after, k, |after|)
  }

  /** The entry at position d is removed, the others keep their order. */
  function Without(entries: seq<DirEntry>, d: nat): seq<DirEntry>
    requires d < |entries|
  {
    entries[..d] + entries[d + 1..]
  }

  /**
   A removal between two calls makes an entry that stays go missing exactly if the removed
   one was delivered already; it is the first that was not.
   */
  lemma RemovalSkipsIff(before: seq<DirEntry>, d: nat, k: nat, p: nat)
    requires Distinct(before) && d < |before| && k <= |before| && p < |before| && p != d
    ensures before[p] !in AcrossChange(before, Without(before, d), k) <==> d < k && p == k
  {
    var after := Without(before, d);
    var q := if p < d then p else p - 1;
    assert after[q] == before[p];
    assert forall i | 0 <= i < |after| && after[i] == before[p] :: i == q;
    if p < k {
      assert before[p] in before[..k];
    } else if q >= k {
      assert Page(after, k, |after|)[q - k] == before[p];
    }
  }

  /** A new entry takes position d, the others keep their order. */
  function Including(entries: seq<DirEntry>, d: nat, e: DirEntry): seq<DirEntry>
    requires d <= |entries|
  {
    entries[..d] + [e] + entries[d..]
  }

  /**
   A new entry before the position reached goes missing, and the last one delivered
   comes again; one after it is seen.
   */
  lemma InsertionRepeatsIff(before: seq<DirEntry>, d: nat, e: DirEntry, k: nat)
    requires Distinct(before) && e !in before && d <= |before| && k <= |before|
    ensures var across := AcrossChange(before, Including(before, d, e), k);
            && (e in across <==> d >= k)
            && (d >= k ==> across == Including(before, d, e))
            && (d < k ==> across == before[..k] + before[k - 1..])
  {
    var after := Including(before, d, e);
    if d < k {
      assert Page(after, k, |after|) == before[k - 1..];
    } else {
      assert before[..k] == after[..k];
      assert Page(after, k, |after|) == after[k..];
      assert after[d] == e && e in after;
    }
  }
}
