/** The log ring buffer of components/domain/src/log_buffer.cpp, in sequential use. */
module LogRing {
  import opened Options

  /** A slot, or a fetched entry; timestamp 0 marks an empty slot. */
  datatype Entry = Entry(timestampMs: nat, level: string, message: string)

  const EMPTY: Entry := Entry(0, "", "")
  const LEVEL_SIZE: nat := 8
  const MAX_MSG_LEN: nat := 128

  /** A bounded copy keeps room for the terminator. */
  function Truncate(s: string, size: nat): (t: string)
    requires size > 0
    ensures |t| < size && t <= s
  {
    if |s| < size then s else s[..size - 1]
  }

  function Stored(timestampMs: nat, level: string, message: string): (e: Entry)
    ensures e.timestampMs == timestampMs
    ensures e.level <= level && |e.level| == Min(|level|, 7)
    ensures e.message <= message && |e.message| == Min(|message|, 127)
  {
    Entry(timestampMs, Truncate(level, LEVEL_SIZE), Truncate(message, MAX_MSG_LEN))
  }

  function Min(a: nat, b: nat): nat {
    if a < b then a else b
  }

  predicate Matches(e: Entry, filter: Option<string>) {
    e.timestampMs != 0 && (filter.Some? && filter.value != "" ==> e.level == filter.value)
  }

  // ---- What a fetch returns --------------------------------------------------

  /** The last k entries, newest first. */
  function Newest(pushed: seq<Entry>, k: nat): (r: seq<Entry>)
    requires k <= |pushed|
    ensures |r| == k
  {
    if k == 0 then [] else Newest(pushed, k - 1) + [pushed[|pushed| - k]]
  }

  function Matching(entries: seq<Entry>, filter: Option<string>): (r: seq<Entry>)
    ensures |r| <= |entries|
  {
    if entries == [] then []
    else
      var last := entries[|entries| - 1];
      Matching(entries[..|entries| - 1], filter) + if Matches(last, filter) then [last] else []
  }

  /** The matching entries among the last n pushes, newest first. */
  function FoundIn(pushed: seq<Entry>, n: nat, filter: Option<string>): seq<Entry> {
    Matching(Newest(pushed, Min(|pushed|, n)), filter)
  }

  /** Of those among the last `capacity` pushes, the first maxCount. */
  function Fetched(pushed: seq<Entry>, capacity: nat, maxCount: nat, filter: Option<string>): seq<Entry> {
    var found := FoundIn(pushed, capacity, filter);
    found[..Min(|found|, maxCount)]
  }

  lemma MatchingNext(pushed: seq<Entry>, n: nat, filter: Option<string>)
    requires 1 <= n <= |pushed|
    ensures var e := pushed[|pushed| - n];
            Matching(Newest(pushed, n), filter)
            == Matching(Newest(pushed, n - 1), filter) + if Matches(e, filter) then [e] else []
  {
    assert Newest(pushed, n)[..n - 1] == Newest(pushed, n - 1);
  }

  lemma NoneYet(pushed: seq<Entry>, filter: Option<string>)
    ensures FoundIn(pushed, 0, filter) == []
  {
  }

  /** The entry seen at an offset behind the head, or an empty slot past the oldest push. */
  lemma FoundNext(pushed: seq<Entry>, offset: nat, e: Entry, filter: Option<string>)
    requires offset >= 1
    requires if offset <= |pushed| then e == pushed[|pushed| - offset] else e.timestampMs == 0
    ensures FoundIn(pushed, offset, filter)
         == FoundIn(pushed, offset - 1, filter) + if Matches(e, filter) then [e] else []
  {
    if offset <= |pushed| {
      MatchingNext(pushed, offset, filter);
    }
  }

  lemma FoundGrows(pushed: seq<Entry>, k: nat, n: nat, filter: Option<string>)
    requires k <= n
    ensures FoundIn(pushed, k, filter) <= FoundIn(pushed, n, filter)
  {
    MatchingGrows(pushed, Min(|pushed|, k), Min(|pushed|, n), filter);
  }

  lemma {:induction false} MatchingGrows(pushed: seq<Entry>, k: nat, n: nat, filter: Option<string>)
    requires k <= n <= |pushed|
    ensures Matching(Newest(pushed, k), filter) <= Matching(Newest(pushed, n), filter)
    decreases n
  {
    hide Matching, Newest;
    if k < n {
      MatchingGrows(pushed, k, n - 1, filter);
      MatchingNext(pushed, n, filter);
    }
  }

  lemma {:induction false} NewestAt(pushed: seq<Entry>, k: nat, i: nat)
    requires i < k <= |pushed|
    ensures Newest(pushed, k)[i] == pushed[|pushed| - 1 - i]
  {
    if i < k - 1 {
      NewestAt(pushed, k - 1, i);
    }
  }

  lemma {:induction false} MatchingKeepsAll(entries: seq<Entry>, filter: Option<string>, e: Entry)
    ensures e in Matching(entries, filter) <==> e in entries && Matches(e, filter)
  {
    if entries != [] {
      var n := |entries| - 1;
      MatchingKeepsAll(entries[..n], filter, e);
      assert entries == entries[..n] + [entries[n]];
    }
  }

  /** Only entries of the last `capacity` pushes are fetched that carry a timestamp and, with
      a filter that is not empty, its level, and all of them while the output has room. */
  lemma FetchedIsRecentAndMatching(pushed: seq<Entry>, capacity: nat, maxCount: nat, filter: Option<string>, e: Entry)
    ensures e in Fetched(pushed, capacity, maxCount, filter) ==>
              && e.timestampMs != 0 && (filter == None || filter.value == "" || e.level == filter.value)
              && e in pushed[|pushed| - Min(|pushed|, capacity)..]
    ensures |Fetched(pushed, capacity, maxCount, filter)| < maxCount || maxCount >= Min(|pushed|, capacity) ==>
              (e.timestampMs != 0 && (filter == None || filter.value == "" || e.level == filter.value)
               && e in pushed[|pushed| - Min(|pushed|, capacity)..] ==>
                 e in Fetched(pushed, capacity, maxCount, filter))
  {
    var k := Min(|pushed|, capacity);
    NewestIsRecent(pushed, k, e);
    hide Newest;
    MatchingKeepsAll(Newest(pushed, k), filter, e);
  }

  /** What is fetched comes from ever older pushes. */
  lemma {:induction false} FoundInOrder(pushed: seq<Entry>, n: nat, filter: Option<string>) returns (ks: seq<nat>)
    ensures |ks| == |FoundIn(pushed, n, filter)|
    ensures forall i :: 0 <= i < |ks| ==>
              ks[i] < |pushed| && ks[i] + n >= |pushed| && pushed[ks[i]] == FoundIn(pushed, n, filter)[i]
    ensures forall i, j :: 0 <= i < j < |ks| ==> ks[i] > ks[j]
  {
    if n == 0 {
      NoneYet(pushed, filter);
      ks := [];
    } else {
      ks := FoundInOrder(pushed, n - 1, filter);
      var e := if n <= |pushed| then pushed[|pushed| - n] else EMPTY;
      FoundNext(pushed, n, e, filter);
      hide FoundIn;
      if Matches(e, filter) {
        ks := ks + [|pushed| - n];
      }
    }
  }

  lemma NewestIsRecent(pushed: seq<Entry>, k: nat, e: Entry)
    requires k <= |pushed|
    ensures e in Newest(pushed, k) <==> e in pushed[|pushed| - k..]
  {
    var recent, newest := pushed[|pushed| - k..], Newest(pushed, k);
    if e in newest {
      var i :| 0 <= i < k && newest[i] == e;
      NewestAt(pushed, k, i);
      assert recent[k - 1 - i] == e;
    }
    if e in recent {
      var j :| 0 <= j < k && recent[j] == e;
      NewestAt(pushed, k, k - 1 - j);
    }
  }

  // ---- The buffer --------------------------------------------------------------

  function SlotOf(k: nat, capacity: nat): (slot: nat)
    requires capacity >= 1
    ensures slot < capacity
  {
    k % capacity
  }

  class LogBuffer {
    const capacity: nat
    const slots: array<Entry>
    var head: nat
    ghost var pushed: seq<Entry>   // since the last clear

    ghost predicate Valid()
      reads this, slots
    {
      && capacity >= 1 && slots.Length == capacity && head == |pushed|
      && (forall k :: 0 <= k < head && head - capacity <= k ==> slots[SlotOf(k, capacity)] == pushed[k])
      && (forall i :: head <= i < capacity ==> slots[i].timestampMs == 0)
    }

    constructor (capacity: nat)
      requires capacity >= 1
      ensures Valid() && this.capacity == capacity && pushed == [] && fresh(slots)
    {
      this.capacity := capacity;
      slots := new Entry[capacity](_ => EMPTY);
      head, pushed := 0, [];
    }

    method Push(timestampMs: nat, level: string, message: string)
      requires Valid()
      modifies this, slots
      ensures Valid() && pushed == old(pushed) + [Stored(timestampMs, level, message)]
    {
      hide SlotOf;
      var idx := SlotOf(head, capacity);
      OldestIsOverwritten(head, capacity);
      head := head + 1;
      slots[idx] := Stored(timestampMs, level, message);
      pushed := pushed + [Stored(timestampMs, level, message)];
    }

    method Clear()
      requires Valid()
      modifies this, slots
      ensures Valid() && pushed == []
    {
      for i := 0 to slots.Length
        invariant forall j :: 0 <= j < i ==> slots[j] == EMPTY
      {
        slots[i] := EMPTY;
      }
      head := 0;
      pushed := [];
    }

    method Fetch(out: array<Entry>, maxCount: nat, filter: Option<string>) returns (written: nat)
      requires Valid() && maxCount <= out.Length && out != slots
      modifies out
      ensures written <= maxCount && out[..written] == Fetched(pushed, capacity, maxCount, filter)
      ensures out[written..] == old(out[written..])
    {
      hide FoundIn, SlotOf;
      written := 0;
      var offset := 1;
      ghost var found := FoundIn(pushed, 0, filter);   // matches among the slots looked at so far
      NoneYet(pushed, filter);
      while offset <= capacity && written < maxCount
        invariant 1 <= offset <= capacity + 1 && |found| == written <= maxCount
        invariant found == FoundIn(pushed, offset - 1, filter)
        invariant out[..written] == found
        invariant forall i :: written <= i < out.Length ==> out[i] == old(out[i])
        decreases capacity - offset
      {
        var idx := if head >= offset then SlotOf(head - offset, capacity)
                   else SlotOf(capacity + head - offset, capacity);
        SlotAt(offset);
        var e := slots[idx];
        FoundNext(pushed, offset, e, filter);
        offset := offset + 1;
        if e.timestampMs == 0 {
          continue;
        }
        if filter.Some? && filter.value != "" && e.level != filter.value {
          continue;
        }
        found := found + [e];
        out[written] := Entry(e.timestampMs, e.level, e.message);
        written := written + 1;
      }
      FoundGrows(pushed, offset - 1, capacity, filter);
    }

    /** The slot at an offset behind the head holds that push, or is still empty. */
    lemma SlotAt(offset: nat)
      requires Valid() && 1 <= offset <= capacity
      ensures offset <= head ==> slots[SlotOf(head - offset, capacity)] == pushed[head - offset]
      ensures offset > head ==> slots[SlotOf(capacity + head - offset, capacity)].timestampMs == 0
    {
      hide SlotOf;
      if offset > head {
        SmallSlot(capacity + head - offset, capacity);
      }
    }
  }

  lemma SmallSlot(k: nat, capacity: nat)
    requires k < capacity
    ensures SlotOf(k, capacity) == k
  {
  }

  lemma SlotsDiffer(distance: nat, capacity: nat, q: nat, r: nat, slot: nat, other: nat)
    requires 0 < distance < capacity && distance == capacity * (q - r) + slot - other
    ensures slot != other
  {
    ProductBounds(capacity, q - r);
  }

  lemma ProductBounds(c: nat, d: int)
    ensures d <= 0 ==> c * d <= 0
    ensures d >= 1 ==> c * d >= c
  {
  }

  /** Two of the last `capacity` indices never share a slot. */
  lemma OldestIsOverwritten(head: nat, capacity: nat)
    requires capacity >= 1
    ensures forall k :: head - capacity < k < head && 0 <= k ==> SlotOf(k, capacity) != SlotOf(head, capacity)
    ensures head < capacity ==> SlotOf(head, capacity) == head
  {
    if head < capacity {
      SmallSlot(head, capacity);
    }
    forall k | head - capacity < k < head && 0 <= k
      ensures SlotOf(k, capacity) != SlotOf(head, capacity)
    {
      SlotsDiffer(head - k, capacity, head / capacity, k / capacity, head % capacity, k % capacity);
    }
  }
}
