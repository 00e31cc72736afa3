/** The reassembly buffer (internal/ip/reassembly.go). */
module Reassembly {
  import opened Bytes
  import opened IPHeader
  import opened ReassemblyModel

  class FragmentGroup {
    var fragments: map<uint16, bytes>
    var totalLen: int
    var received: int
    const createdAt: int

    constructor (now: int)
      ensures fresh(this) && Value() == NewGroup(now)
    {
      fragments := map[];
      totalLen := -1;
      received := 0;
      createdAt := now;
    }

    ghost function Value(): Group
      reads this
    {
      Group(fragments, totalLen, received, createdAt)
    }

    /** Keeps the fragment unless its offset is taken; a last fragment fixes the length. */
    method Keep(header: Header, fragment: bytes) returns (added: bool)
      modifies this
      ensures Value() == Store(old(Value()), header, fragment)
      ensures added <==> header.fragOffset !in old(fragments)
    {
      var offset := Wrap16(header.fragOffset as int * 8);
      var payloadLen := |header.PayloadOf(fragment)|;
      added := header.fragOffset !in fragments;
      if added {
        fragments := fragments[header.fragOffset := fragment];
        received := received + payloadLen;
      }
      if !header.MF() {
        totalLen := offset + payloadLen;
      }
    }
  }

  class ReassemblyBuffer {
    var groups: map<FragmentKey, FragmentGroup>
    var groupsActive: int
    var fragmentsAdded: int
    var reassembled: int
    var evicted: int
    /** The calls of `onComplete`. */
    var delivered: seq<Delivery>
    /** The buffer as a value, with two counts that the code does not keep. */
    ghost var model: State

    /** The fields agree with `model`, and no two keys share a group. */
    ghost predicate Valid()
      reads this, groups.Values
    {
      && groups.Keys == model.groups.Keys
      && (forall k :: k in groups ==> groups[k].Value() == model.groups[k])
      && (forall k, m :: k in groups && m in groups && k != m ==> groups[k] != groups[m])
      && model.stats == Stats(groupsActive, fragmentsAdded, reassembled, evicted)
      && model.delivered == delivered
    }

    constructor ()
      ensures Valid() && model == State(map[], Stats(0, 0, 0, 0), [], 0, 0)
    {
      groups, delivered := map[], [];
      groupsActive, fragmentsAdded, reassembled, evicted := 0, 0, 0, 0;
      model := State(map[], Stats(0, 0, 0, 0), [], 0, 0);
    }

    method Add(fragment: bytes, now: int) returns (res: AddResult)
      requires Valid()
      modifies this, groups.Values
      ensures Valid() && fresh(groups.Values - old(groups.Values))
      ensures AddStep(old(model), fragment, now, model, res)
    {
      hide Rebuilds, Stored;
      var parsed := ParseHeader(fragment);
      if parsed.Err? {
        return Rejected(parsed.error);
      }
      var header := parsed.value;
      if !IsFragment(header) {
        delivered := delivered + [Direct(fragment)];
        model := model.(delivered := model.delivered + [Direct(fragment)]);
        return Added;
      }
      var key := KeyOf(header);
      var group := StoreFragment(key, header, fragment, now);
      res := Added;
      if group.totalLen > 0 && group.received == group.totalLen {
        var rebuilt := Reassemble(group);
        if rebuilt.Panicked? {
          return Crashed;
        }
        Close(key, rebuilt);
      }
    }

    /** The locked part of `Add` up to the completeness test. */
    method StoreFragment(key: FragmentKey, header: Header, fragment: bytes, now: int) returns (group: FragmentGroup)
      requires Valid() && key == KeyOf(header)
      modifies this, groups.Values
      ensures Valid() && fresh(groups.Values - old(groups.Values))
      ensures model == Stored(old(model), header, fragment, now)
      ensures key in groups && group == groups[key]
    {
      hide Kept, Opened, KeyOf;
      group := GroupFor(key, now);
      KeepIn(group, header, fragment);
    }

    method KeepIn(group: FragmentGroup, header: Header, fragment: bytes)
      requires Valid() && KeyOf(header) in groups && group == groups[KeyOf(header)]
      modifies this`fragmentsAdded, this`model, group
      ensures Valid()
      ensures model == Kept(old(model), header, fragment)
    {
      hide Store, KeyOf;
      ghost var others := groups.Keys - {KeyOf(header)};
      assert forall k :: k in others ==> groups[k] != group;
      var added := group.Keep(header, fragment);
      assert forall k :: k in others ==> groups[k].Value() == model.groups[k];
      fragmentsAdded := if added then fragmentsAdded + 1 else fragmentsAdded;
      model := Kept(model, header, fragment);
      assert model.groups.Keys == groups.Keys;
    }

    method GroupFor(key: FragmentKey, now: int) returns (group: FragmentGroup)
      requires Valid()
      modifies this
      ensures Valid() && fresh(groups.Values - old(groups.Values))
      ensures model == Opened(old(model), key, now)
      ensures key in groups && group == groups[key]
    {
      if key in groups {
        return groups[key];
      }
      group := new FragmentGroup(now);
      groups := groups[key := group];
      groupsActive := groupsActive + 1;
      model := Opened(model, key, now);
    }

    /** Drops a complete group, and delivers the packet if there is one. */
    method Close(key: FragmentKey, rebuilt: Rebuild)
      requires Valid() && key in groups && !rebuilt.Panicked?
      modifies this
      ensures Valid() && groups.Values <= old(groups.Values)
      ensures model == Finished(old(model), key, rebuilt)
    {
      groups := groups - {key};
      groupsActive := groupsActive - 1;
      if rebuilt.Built? {
        reassembled := reassembled + 1;
        delivered := delivered + [Rebuilt(key, rebuilt.packet)];
      }
      model := Finished(model, key, rebuilt);
    }

    /** Rebuilds the packet of a complete group, visiting the fragments in no particular order. */
    method Reassemble(group: FragmentGroup) returns (r: Rebuild)
      requires group.totalLen > 0
      ensures Rebuilds(group.Value(), r)
    {
      hide Blank, WriteAll;
      if 0 !in group.fragments {
        return Failed;
      }
      var parsed := ParseHeader(group.fragments[0]);
      if parsed.Err? {
        return Failed;
      }
      var header := parsed.value;
      if header.ihl < 5 {
        return Panicked;
      }
      var fullPacket := StartPacket(header, group.totalLen);
      var ok, order := CopyFragments(fullPacket, group.fragments, header.HeaderLen());
      if !ok {
        return Panicked;
      }
      r := Built(fullPacket[..]);
      assert RebuildsInOrder(group.Value(), header, order, r);
    }

    /** The zeroed packet with the new header in front. */
    static method StartPacket(header: Header, totalLen: nat) returns (fullPacket: array<byte>)
      requires header.ihl >= 5
      ensures fresh(fullPacket) && fullPacket[..] == Blank(header, totalLen)
    {
      hide MarshalOf, Seal, Overwrite;
      var headerLen := header.HeaderLen();
      fullPacket := new byte[headerLen + totalLen](_ => 0);
      assert fullPacket[..] == Zeros(headerLen + totalLen);
      var newHeader := header.ClearMF();
      newHeader := newHeader.(fragOffset := 0, totalLen := Wrap16(headerLen + totalLen));
      var headerBytes := MarshalSealed(newHeader);
      OverwriteFront(headerBytes[..], totalLen);
      CopyInto(fullPacket, 0, headerBytes[..]);
    }

    /** The copying loop over the map; it stops with a panic at an offset past the end. */
    static method CopyFragments(fullPacket: array<byte>, fragments: map<uint16, bytes>, headerLen: nat)
      returns (ok: bool, ghost order: seq<uint16>)
      modifies fullPacket
      ensures ok <==> forall o: uint16 :: o in fragments ==> headerLen + o as int * 8 <= fullPacket.Length
      ensures ok ==> Enumerates(order, fragments.Keys) && Fits(old(fullPacket[..]), headerLen, order)
      ensures ok ==> fullPacket[..] == WriteAll(old(fullPacket[..]), fragments, headerLen, order)
    {
      hide WriteAll, Enumerates, Fits, Overwrite, PayloadIn;
      ghost var blank := fullPacket[..];
      var remaining := fragments.Keys;
      ghost var done: set<uint16> := {};
      order := [];
      NothingWritten(blank, fragments, headerLen);
      while remaining != {}
        invariant remaining <= fragments.Keys && done == fragments.Keys - remaining
        invariant forall o :: o in order ==> o in fragments
        invariant Enumerates(order, done)
        invariant Fits(blank, headerLen, order)
        invariant fullPacket[..] == WriteAll(blank, fragments, headerLen, order)
        decreases |remaining|
      {
        var offset :| offset in remaining;
        var byteOffset := headerLen + offset as int * 8;
        if byteOffset > fullPacket.Length {
          return false, order;
        }
        WriteAllSnoc(blank, fragments, headerLen, order, offset);
        EnumeratesSnoc(order, done, offset);
        CopyInto(fullPacket, byteOffset, PayloadIn(fragments[offset]));
        order := order + [offset];
        remaining := remaining - {offset};
        done := done + {offset};
      }
      assert done == fragments.Keys;
      AllFit(blank, headerLen, order, fragments.Keys);
      ok := true;
    }

    method Cleanup(now: int)
      requires Valid()
      modifies this
      ensures Valid() && groups.Values <= old(groups.Values)
      ensures model == Cleaned(old(model), now)
    {
      hide Evicted, Swept;
      ghost var before := model;
      var remaining := groups.Keys;
      SweepStart(before, now);
      while remaining != {}
        invariant Valid() && groups.Values <= old(groups.Values)
        invariant remaining <= groups.Keys && remaining <= before.groups.Keys
        invariant model == Swept(before, now, remaining)
        decreases |remaining|
      {
        var key :| key in remaining;
        SweepStep(before, now, remaining, key);
        remaining := remaining - {key};
        if now - groups[key].createdAt > STALE_AFTER {
          Evict(key);
        }
      }
      SweepEnd(before, now);
    }

    method Evict(key: FragmentKey)
      requires Valid() && key in groups
      modifies this
      ensures Valid() && groups.Values <= old(groups.Values) && groups.Keys == old(groups.Keys) - {key}
      ensures model == Evicted(old(model), {key})
    {
      groups := groups - {key};
      groupsActive := groupsActive - 1;
      evicted := evicted + 1;
      model := Evicted(model, {key});
    }
  }

  lemma NothingWritten(buf: bytes, fragments: map<uint16, bytes>, headerLen: nat)
    ensures Fits(buf, headerLen, []) && WriteAll(buf, fragments, headerLen, []) == buf
    ensures Enumerates([], {})
  {
  }

  lemma AllFit(buf: bytes, headerLen: nat, order: seq<uint16>, keys: set<uint16>)
    requires Enumerates(order, keys) && Fits(buf, headerLen, order)
    ensures forall o :: o in keys ==> headerLen + o as int * 8 <= |buf|
  {
  }

  /** The buffer during a sweep at `now`, with the keys in `remaining` still to be looked at. */
  ghost function Swept(s: State, now: int, remaining: set<FragmentKey>): State {
    Evicted(s, StaleKeys(s, now) - remaining)
  }

  lemma SweepStart(s: State, now: int)
    ensures Swept(s, now, s.groups.Keys) == s
  {
    assert StaleKeys(s, now) - s.groups.Keys == {};
    assert s.groups - {} == s.groups;
  }

  lemma SweepEnd(s: State, now: int)
    ensures Swept(s, now, {}) == Cleaned(s, now)
  {
    assert StaleKeys(s, now) - {} == StaleKeys(s, now);
  }

  lemma SweepStep(s: State, now: int, remaining: set<FragmentKey>, key: FragmentKey)
    requires key in remaining && remaining <= s.groups.Keys
    ensures var t := Swept(s, now, remaining);
      && key in t.groups && t.groups[key] == s.groups[key]
      && Swept(s, now, remaining - {key}) == if key in StaleKeys(s, now) then Evicted(t, {key}) else t
  {
    var gone := StaleKeys(s, now) - remaining;
    if key in StaleKeys(s, now) {
      assert StaleKeys(s, now) - (remaining - {key}) == gone + {key};
      assert s.groups - gone - {key} == s.groups - (gone + {key});
    } else {
      assert StaleKeys(s, now) - (remaining - {key}) == gone;
    }
  }
}
