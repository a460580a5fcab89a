/** The list of saved WiFi networks kept in key/value slots
    (WifiManager::saveCredentials in components/infrastructure/network/src/wifi.cpp). */
module WifiStore {
  import opened Options

  const WIFI_MAX_NETWORKS: nat := 5

  /** Size of the buffer each stored string is read into, terminator included. */
  const READ_BUFFER: nat := 64

  datatype Key = Ssid(slot: nat) | Password(slot: nat)
  datatype Network = Network(ssid: string, password: string)

  /** A longer string is stored without complaint but cannot be read back. */
  predicate Readable(s: string) {
    |s| < READ_BUFFER
  }

  // ---- The abstract list -----------------------------------------------------

  function IndexOf(nets: seq<Network>, ssid: string): (i: nat)
    ensures i <= |nets| && (i < |nets| ==> nets[i].ssid == ssid)
    ensures forall j :: 0 <= j < i ==> nets[j].ssid != ssid
  {
    if nets == [] || nets[0].ssid == ssid then 0 else 1 + IndexOf(nets[1..], ssid)
  }

  /** Update in place, append, or drop the oldest and append. */
  function Saved(nets: seq<Network>, ssid: string, password: string): seq<Network> {
    var i := IndexOf(nets, ssid);
    if i < |nets| then nets[i := Network(ssid, password)]
    else if |nets| < WIFI_MAX_NETWORKS then nets + [Network(ssid, password)]
    else nets[1..] + [Network(ssid, password)]
  }

  predicate Distinct(nets: seq<Network>) {
    forall i, j :: 0 <= i < j < |nets| ==> nets[i].ssid != nets[j].ssid
  }

  // ---- What the code does with the slots --------------------------------------

  /** Moving one slot over another: a string that cannot be read is not moved. */
  function Moved(source: Network, target: Network): Network {
    Network(if Readable(source.ssid) then source.ssid else target.ssid,
            if Readable(source.password) then source.password else target.password)
  }

  /** The first slots after the eviction loop. */
  function Shifted(nets: seq<Network>): (r: seq<Network>)
    requires nets != []
    ensures |r| == |nets| - 1
  {
    seq(|nets| - 1, i requires 0 <= i < |nets| - 1 => Moved(nets[i + 1], nets[i]))
  }

  /** The scan compares what it can read, so an unreadable SSID is never found. */
  function FoundAt(nets: seq<Network>, ssid: string): (i: nat)
    ensures i <= |nets| && (i < |nets| ==> nets[i].ssid == ssid)
  {
    if Readable(ssid) then IndexOf(nets, ssid) else |nets|
  }

  function Written(nets: seq<Network>, ssid: string, password: string): seq<Network> {
    var i := FoundAt(nets, ssid);
    if i < |nets| then nets[i := Network(ssid, password)]
    else if |nets| < WIFI_MAX_NETWORKS then nets + [Network(ssid, password)]
    else Shifted(nets) + [Network(ssid, password)]
  }

  ghost predicate HasSlots(strs: map<Key, string>, n: nat) {
    forall i: nat :: i < n ==> Ssid(i) in strs && Password(i) in strs
  }

  /** The list that the first n slots hold. */
  ghost function Slots(strs: map<Key, string>, n: nat): (nets: seq<Network>)
    requires HasSlots(strs, n)
    ensures |nets| == n
  {
    seq(n, i requires 0 <= i < n => Network(strs[Ssid(i)], strs[Password(i)]))
  }

  lemma SsidStored(strs: map<Key, string>, n: nat, i: nat, ssid: string)
    requires HasSlots(strs, n) && i < n
    ensures HasSlots(strs[Ssid(i) := ssid], n)
    ensures Slots(strs[Ssid(i) := ssid], n) == Slots(strs, n)[i := Network(ssid, Slots(strs, n)[i].password)]
  {
  }

  lemma PasswordStored(strs: map<Key, string>, n: nat, i: nat, password: string)
    requires HasSlots(strs, n) && i < n
    ensures HasSlots(strs[Password(i) := password], n)
    ensures Slots(strs[Password(i) := password], n) == Slots(strs, n)[i := Network(Slots(strs, n)[i].ssid, password)]
  {
  }

  lemma SlotAppended(strs: map<Key, string>, n: nat, ssid: string, password: string)
    requires HasSlots(strs, n)
    ensures var more := strs[Ssid(n) := ssid][Password(n) := password];
            HasSlots(more, n + 1) && Slots(more, n + 1) == Slots(strs, n) + [Network(ssid, password)]
  {
  }

  class Store {
    var strs: map<Key, string>
    var count: Option<nat>

    ghost function Count(): nat
      reads this
    {
      if count.Some? then count.value else 0
    }

    ghost predicate Valid()
      reads this
    {
      Count() <= WIFI_MAX_NETWORKS && HasSlots(strs, Count())
    }

    ghost function Networks(): (nets: seq<Network>)
      requires Valid()
      reads this
      ensures |nets| == Count()
    {
      Slots(strs, Count())
    }

    constructor ()
      ensures Valid() && Networks() == []
    {
      strs, count := map[], None;
    }

    /** A read gives nothing for a missing key and for a string that overflows the buffer. */
    method ReadStr(key: Key) returns (r: Option<string>)
      ensures r == if key in strs && |strs[key]| <= 63 then Some(strs[key]) else None
    {
      if key in strs && |strs[key]| + 1 <= READ_BUFFER {
        r := Some(strs[key]);
      } else {
        r := None;
      }
    }

    method SaveCredentials(ssid: string, password: string)
      requires Valid()
      modifies this
      ensures Valid() && Networks() == Written(old(Networks()), ssid, password)
    {
      ghost var nets := Networks();
      var n := if count.Some? then count.value else 0;
      for i := 0 to n
        invariant unchanged(this)
        invariant Readable(ssid) ==> forall j :: 0 <= j < i ==> nets[j].ssid != ssid
      {
        var existing := ReadStr(Ssid(i));
        assert strs[Ssid(i)] == nets[i].ssid;
        if existing == Some(ssid) {
          PasswordStored(strs, n, i, password);
          strs := strs[Password(i) := password];
          return;
        }
      }
      if n < WIFI_MAX_NETWORKS {
        SlotAppended(strs, n, ssid, password);
        strs := strs[Ssid(n) := ssid];
        strs := strs[Password(n) := password];
        count := Some(n + 1);
      } else {
        Evict();
        var last := WIFI_MAX_NETWORKS - 1;
        ghost var shifted := Networks();
        SsidStored(strs, n, last, ssid);
        strs := strs[Ssid(last) := ssid];
        PasswordStored(strs, n, last, password);
        strs := strs[Password(last) := password];
        assert Networks() == shifted[..last] + [Network(ssid, password)];
      }
    }

    /** Moves slots 1 to 4 one place down. */
    method Evict()
      requires Valid() && Count() == WIFI_MAX_NETWORKS
      modifies this`strs
      ensures Valid() && Networks()[..WIFI_MAX_NETWORKS - 1] == Shifted(old(Networks()))
    {
      hide Slots, HasSlots;
      ghost var nets := Networks();
      for i := 1 to WIFI_MAX_NETWORKS
        invariant Valid() && Count() == WIFI_MAX_NETWORKS
        invariant forall j :: 0 <= j < i - 1 ==> Networks()[j] == Shifted(nets)[j]
        invariant forall j :: i - 1 <= j < WIFI_MAX_NETWORKS ==> Networks()[j] == nets[j]
      {
        MoveSlot(i);
      }
    }

    /** Copies slot i over slot i - 1, as far as it can be read. */
    method MoveSlot(i: nat)
      requires Valid() && 1 <= i < Count()
      modifies this`strs
      ensures Valid() && Networks() == old(Networks())[i - 1 := Moved(old(Networks())[i], old(Networks())[i - 1])]
    {
      var s := ReadStr(Ssid(i));
      if s.Some? {
        SsidStored(strs, Count(), i - 1, s.value);
        strs := strs[Ssid(i - 1) := s.value];
      }
      var p := ReadStr(Password(i));
      if p.Some? {
        PasswordStored(strs, Count(), i - 1, p.value);
        strs := strs[Password(i - 1) := p.value];
      }
    }
  }

  // ---- When the slots hold the abstract list ----------------------------------

  /** Slot i moves down whole. */
  predicate MovesWhole(nets: seq<Network>, i: nat)
    requires 1 <= i < |nets|
  {
    Readable(nets[i].ssid) && (Readable(nets[i].password) || nets[i].password == nets[i - 1].password)
  }

  lemma ShiftedAt(nets: seq<Network>, i: nat)
    requires 1 <= i < |nets| && Distinct(nets)
    ensures Shifted(nets)[i - 1] == nets[i] <==> MovesWhole(nets, i)
  {
    assert nets[i - 1].ssid != nets[i].ssid;
  }

  lemma ShiftDropsOldestExactly(nets: seq<Network>)
    requires nets != [] && Distinct(nets)
    ensures Shifted(nets) == nets[1..] <==> forall i :: 1 <= i < |nets| ==> MovesWhole(nets, i)
  {
    hide Shifted, MovesWhole;
    if Shifted(nets) == nets[1..] {
      forall i | 1 <= i < |nets|
        ensures MovesWhole(nets, i)
      {
        ShiftedAt(nets, i);
        assert nets[1..][i - 1] == nets[i];
      }
    } else if forall i :: 1 <= i < |nets| ==> MovesWhole(nets, i) {
      forall j | 0 <= j < |nets| - 1
        ensures Shifted(nets)[j] == nets[1..][j]
      {
        ShiftedAt(nets, j + 1);
      }
    }
  }

  /** Saving a new network into a full store keeps every pairing exactly when each SSID that
      has to move can be read, and each password can or happens to equal the one it replaces. */
  lemma EvictionKeepsPairing(nets: seq<Network>, ssid: string, password: string)
    requires Distinct(nets) && |nets| == WIFI_MAX_NETWORKS
    requires IndexOf(nets, ssid) == |nets|
    ensures Written(nets, ssid, password) == Saved(nets, ssid, password)
       <==> forall i :: 1 <= i < |nets| ==> MovesWhole(nets, i)
  {
    ShiftDropsOldestExactly(nets);
    hide Shifted, MovesWhole, IndexOf;
    var n := |nets| - 1;
    assert Written(nets, ssid, password)[..n] == Shifted(nets);
    assert Saved(nets, ssid, password)[..n] == nets[1..];
  }

  /** Slot i - 1 is left as it is when slot i moves down. */
  predicate StaysPut(nets: seq<Network>, i: nat)
    requires 1 <= i < |nets|
  {
    !Readable(nets[i].ssid) && (!Readable(nets[i].password) || nets[i].password == nets[i - 1].password)
  }

  lemma StaysAt(nets: seq<Network>, i: nat)
    requires 1 <= i < |nets| && Distinct(nets)
    ensures Shifted(nets)[i - 1] == nets[i - 1] <==> StaysPut(nets, i)
  {
    assert nets[i - 1].ssid != nets[i].ssid;
  }

  lemma ShiftDoesNothingExactly(nets: seq<Network>)
    requires nets != [] && Distinct(nets)
    ensures Shifted(nets) == nets[..|nets| - 1] <==> forall i :: 1 <= i < |nets| ==> StaysPut(nets, i)
  {
    hide Shifted, StaysPut;
    if Shifted(nets) == nets[..|nets| - 1] {
      forall i | 1 <= i < |nets|
        ensures StaysPut(nets, i)
      {
        StaysAt(nets, i);
        assert nets[..|nets| - 1][i - 1] == nets[i - 1];
      }
    } else if forall i :: 1 <= i < |nets| ==> StaysPut(nets, i) {
      forall j | 0 <= j < |nets| - 1
        ensures Shifted(nets)[j] == nets[..|nets| - 1][j]
      {
        StaysAt(nets, j + 1);
      }
    }
  }

  /** Saving a listed network updates it in place exactly when its SSID can be read; or, by
      accident, when it is the last of a full store that an eviction leaves untouched. */
  lemma ListedIsUpdatedExactly(nets: seq<Network>, ssid: string, password: string)
    requires Distinct(nets) && |nets| <= WIFI_MAX_NETWORKS && IndexOf(nets, ssid) < |nets|
    ensures Written(nets, ssid, password) == Saved(nets, ssid, password)
       <==> || Readable(ssid)
            || (|nets| == WIFI_MAX_NETWORKS && IndexOf(nets, ssid) == |nets| - 1
                && forall i :: 1 <= i < |nets| ==> StaysPut(nets, i))
  {
    var i, n := IndexOf(nets, ssid), |nets| - 1;
    var saved := Saved(nets, ssid, password);
    assert |saved| == |nets|;
    if !Readable(ssid) && |nets| == WIFI_MAX_NETWORKS {
      ShiftDoesNothingExactly(nets);
      hide Shifted, StaysPut, Readable, IndexOf;
      assert Written(nets, ssid, password) == Shifted(nets) + [Network(ssid, password)];
      if i < n {
        assert saved[n] == nets[n] && nets[i].ssid != nets[n].ssid;
        assert Written(nets, ssid, password)[n].ssid == ssid;
      } else {
        assert saved == nets[..n] + [Network(ssid, password)];
        assert Written(nets, ssid, password)[..n] == Shifted(nets) && saved[..n] == nets[..n];
      }
    }
  }

  predicate AllReadable(nets: seq<Network>) {
    forall i :: 0 <= i < |nets| ==> Readable(nets[i].ssid) && Readable(nets[i].password)
  }

  lemma WrittenIsSaved(nets: seq<Network>, ssid: string, password: string)
    requires AllReadable(nets)
    ensures Written(nets, ssid, password) == Saved(nets, ssid, password)
  {
    if nets != [] {
      assert Shifted(nets) == nets[1..];
    }
  }

  // ---- Runs --------------------------------------------------------------------

  function AfterAll(saves: seq<Network>): seq<Network> {
    if saves == [] then []
    else Saved(AfterAll(saves[..|saves| - 1]), saves[|saves| - 1].ssid, saves[|saves| - 1].password)
  }

  /** The slots after a run, as the code writes them. */
  function WrittenAll(saves: seq<Network>): seq<Network> {
    if saves == [] then []
    else Written(WrittenAll(saves[..|saves| - 1]), saves[|saves| - 1].ssid, saves[|saves| - 1].password)
  }

  /** Every run of readable saves leaves the slots representing the abstract list. */
  lemma {:induction false} ReadableRunsRepresentList(saves: seq<Network>)
    requires AllReadable(saves)
    ensures WrittenAll(saves) == AfterAll(saves) && AllReadable(AfterAll(saves))
  {
    if saves != [] {
      var rest, last := saves[..|saves| - 1], saves[|saves| - 1];
      ReadableRunsRepresentList(rest);
      WrittenIsSaved(WrittenAll(rest), last.ssid, last.password);
    }
  }

  const SSID_FIELD: nat := 32
  const PASSWORD_FIELD: nat := 64

  /** The only callers save what a connect request holds: two bounded copies. */
  function Copied(s: string, field: nat): (t: string)
    requires field > 0
    ensures |t| < field && t <= s && (|s| < field ==> t == s)
  {
    if |s| < field then s else s[..field - 1]
  }

  function Requested(requests: seq<Network>): (saves: seq<Network>)
    ensures |saves| == |requests|
  {
    seq(|requests|, i requires 0 <= i < |requests| =>
          Network(Copied(requests[i].ssid, SSID_FIELD), Copied(requests[i].password, PASSWORD_FIELD)))
  }

  /** Every run of connect requests, however long their strings, leaves the slots
      representing the abstract list of what was asked for. */
  lemma SlotsRepresentList(requests: seq<Network>)
    ensures WrittenAll(Requested(requests)) == AfterAll(Requested(requests))
    ensures AllReadable(AfterAll(Requested(requests)))
  {
    ReadableRunsRepresentList(Requested(requests));
  }

  /** At most five networks, no SSID twice. */
  lemma {:induction false} ListStaysSmallAndDistinct(saves: seq<Network>)
    ensures |AfterAll(saves)| <= 5
    ensures forall i, j :: 0 <= i < j < |AfterAll(saves)| ==> AfterAll(saves)[i].ssid != AfterAll(saves)[j].ssid
  {
    if saves != [] {
      ListStaysSmallAndDistinct(saves[..|saves| - 1]);
    }
  }

  function LastPassword(saves: seq<Network>, ssid: string): Option<string> {
    if saves == [] then None
    else if saves[|saves| - 1].ssid == ssid then Some(saves[|saves| - 1].password)
    else LastPassword(saves[..|saves| - 1], ssid)
  }

  /** Every listed network carries the password it was last saved with. */
  lemma {:induction false} PasswordsAreLatest(saves: seq<Network>, i: nat)
    requires i < |AfterAll(saves)|
    ensures LastPassword(saves, AfterAll(saves)[i].ssid) == Some(AfterAll(saves)[i].password)
  {
    var rest, last := saves[..|saves| - 1], saves[|saves| - 1];
    var before := AfterAll(rest);
    ListStaysSmallAndDistinct(rest);
    var k := IndexOf(before, last.ssid);
    if k < |before| {
      if i != k {
        PasswordsAreLatest(rest, i);
      }
    } else if i < |AfterAll(saves)| - 1 {
      PasswordsAreLatest(rest, if |before| < WIFI_MAX_NETWORKS then i else i + 1);
    }
  }

  /** The SSIDs that entered the list, in the order they did. */
  function Entered(saves: seq<Network>): seq<string> {
    if saves == [] then []
    else
      var rest, last := saves[..|saves| - 1], saves[|saves| - 1];
      if IndexOf(AfterAll(rest), last.ssid) < |AfterAll(rest)| then Entered(rest) else Entered(rest) + [last.ssid]
  }

  function Ssids(nets: seq<Network>): (r: seq<string>)
    ensures |r| == |nets|
  {
    seq(|nets|, i requires 0 <= i < |nets| => nets[i].ssid)
  }

  lemma SsidsSaved(nets: seq<Network>, ssid: string, password: string)
    ensures Ssids(Saved(nets, ssid, password))
         == if IndexOf(nets, ssid) < |nets| then Ssids(nets)
            else (if |nets| < WIFI_MAX_NETWORKS then Ssids(nets) else Ssids(nets)[1..]) + [ssid]
  {
    hide IndexOf;
  }

  function LastFive(entered: seq<string>): (r: seq<string>)
    ensures |r| == if |entered| < 5 then |entered| else 5
  {
    entered[|entered| - (if |entered| < 5 then |entered| else 5)..]
  }

  lemma OneMoreEntered(entered: seq<string>, ssid: string)
    ensures var last := LastFive(entered);
            LastFive(entered + [ssid]) == (if |last| < WIFI_MAX_NETWORKS then last else last[1..]) + [ssid]
  {
  }

  /** First in, first out: the list holds exactly the last five SSIDs that entered it. */
  lemma {:induction false} ListIsFifo(saves: seq<Network>)
    ensures Ssids(AfterAll(saves)) == LastFive(Entered(saves))
  {
    if saves != [] {
      var rest, last := saves[..|saves| - 1], saves[|saves| - 1];
      ListIsFifo(rest);
      SsidsSaved(AfterAll(rest), last.ssid, last.password);
      OneMoreEntered(Entered(rest), last.ssid);
      hide Ssids, Saved, IndexOf, LastFive;
    }
  }
}
