/**
  The encoder's dictionary: an open-addressed table with linear probing whose slots carry
  the epoch they were written in, so that a CLEAR is one increment. It refines a finite
  map from key (12-bit prefix, 8-bit suffix) to code.
 */
module LzwTable {
  import opened Bits

  const HSIZE := 8192
  const KEYS := 0x10_0000         // 2^20, the number of keys
  const EPOCH_MAX := 4096         // 2^12 epochs fit above the key in 32 bits

  // (key * 2654435761u) >> 19, in 32-bit arithmetic.
  function Home(key: nat): (s: nat)
    ensures s < HSIZE
  {
    key * 2654435761 % 0x1_0000_0000 / 0x8_0000
  }

  // The slot j places after s, cyclically.
  function At(s: nat, j: nat): (t: nat)
    ensures t < HSIZE
  {
    (s + j) % HSIZE
  }

  function Tag(epoch: nat, key: nat): nat
  {
    epoch * KEYS + key
  }

  ghost predicate LiveSlot(tags: seq<nat>, epoch: nat, s: nat)
    requires s < |tags|
  {
    tags[s] / KEYS == epoch
  }

  // Every slot from the key's home to its place is live, so probing reaches it.
  ghost predicate Reached(tags: seq<nat>, epoch: nat, key: nat, j: nat)
    requires |tags| == HSIZE
  {
    forall i: nat :: i < j ==> LiveSlot(tags, epoch, At(Home(key), i))
  }

  /** The abstract map, and for every key how far past its home slot it was put. */
  ghost predicate Refines(tags: seq<nat>, codes: seq<nat>, epoch: nat, dict: map<nat, nat>, place: map<nat, nat>)
  {
    |tags| == |codes| == HSIZE && 0 < epoch < EPOCH_MAX && dict.Keys == place.Keys &&
    (forall s :: 0 <= s < HSIZE ==> tags[s] / KEYS <= epoch) &&
    (forall k :: k in dict ==> k < KEYS && place[k] < HSIZE && Reached(tags, epoch, k, place[k])) &&
    (forall k :: k in dict ==> tags[At(Home(k), place[k])] == Tag(epoch, k)) &&
    (forall k :: k in dict ==> codes[At(Home(k), place[k])] == dict[k]) &&
    (forall s :: 0 <= s < HSIZE && LiveSlot(tags, epoch, s) ==>
      tags[s] % KEYS in dict && At(Home(tags[s] % KEYS), place[tags[s] % KEYS]) == s)
  }

  lemma Sizes(tags: seq<nat>, codes: seq<nat>, epoch: nat, dict: map<nat, nat>, place: map<nat, nat>)
    requires Refines(tags, codes, epoch, dict, place)
    ensures |tags| == |codes| == HSIZE
  {
  }

  // A stale slot is never mistaken for a live one, and a live tag spells out its key.
  lemma TagParts(epoch: nat, key: nat)
    requires key < KEYS
    ensures Tag(epoch, key) / KEYS == epoch && Tag(epoch, key) % KEYS == key
  {
  }

  // ---- the load factor ----

  ghost function KeysBelow(tags: seq<nat>, n: nat): set<nat>
    requires n <= |tags|
  {
    set s: nat | s < n :: tags[s] % KEYS
  }

  // Live slots hold distinct keys of the map.
  lemma LiveKey(tags: seq<nat>, codes: seq<nat>, epoch: nat, dict: map<nat, nat>, place: map<nat, nat>, s: nat, t: nat)
    requires Refines(tags, codes, epoch, dict, place) && s < HSIZE && t < HSIZE
    requires LiveSlot(tags, epoch, s) && LiveSlot(tags, epoch, t)
    ensures tags[s] % KEYS in dict
    ensures tags[s] % KEYS == tags[t] % KEYS ==> s == t
  {
    hide At;
    hide Home;
  }

  lemma {:induction false} AllLiveIsLarge(tags: seq<nat>, codes: seq<nat>, epoch: nat, dict: map<nat, nat>,
                                          place: map<nat, nat>, n: nat)
    requires Refines(tags, codes, epoch, dict, place) && n <= HSIZE && |tags| == HSIZE
    requires forall s: nat :: s < n ==> LiveSlot(tags, epoch, s)
    ensures KeysBelow(tags, n) <= dict.Keys && |KeysBelow(tags, n)| == n
    decreases n
  {
    hide LiveSlot;
    hide Refines;
    if n > 0 {
      AllLiveIsLarge(tags, codes, epoch, dict, place, n - 1);
      var k := tags[n - 1] % KEYS;
      assert KeysBelow(tags, n) == KeysBelow(tags, n - 1) + {k};
      LiveKey(tags, codes, epoch, dict, place, n - 1, n - 1);
      forall s: nat | s < n - 1
        ensures tags[s] % KEYS != k
      {
        LiveKey(tags, codes, epoch, dict, place, s, n - 1);
      }
    }
  }

  lemma SubsetSize(a: set<nat>, b: set<nat>)
    requires a <= b
    ensures |a| <= |b|
  {
    if a != {} {
      var x :| x in a;
      SubsetSize(a - {x}, b - {x});
    }
  }

  // With fewer keys than slots some slot is free, so every probe ends.
  lemma FreeSlot(tags: seq<nat>, codes: seq<nat>, epoch: nat, dict: map<nat, nat>, place: map<nat, nat>)
    returns (f: nat)
    requires Refines(tags, codes, epoch, dict, place) && |dict| < HSIZE
    ensures f < HSIZE && !LiveSlot(tags, epoch, f)
  {
    if forall s: nat :: s < HSIZE ==> LiveSlot(tags, epoch, s) {
      AllLiveIsLarge(tags, codes, epoch, dict, place, HSIZE);
      SubsetSize(KeysBelow(tags, HSIZE), dict.Keys);
      assert false;
    }
    f :| f < HSIZE && !LiveSlot(tags, epoch, f);
  }

  lemma AtDistance(home: nat, f: nat) returns (j: nat)
    requires home < HSIZE && f < HSIZE
    ensures j < HSIZE && At(home, j) == f
  {
    j := (f - home) % HSIZE;
  }

  lemma AtNext(home: nat, j: nat)
    requires home < HSIZE
    ensures At(home, 0) == home
    ensures At(home, j + 1) == (At(home, j) + 1) % HSIZE
  {
  }

  // The free slot that a failed probe ends at does not belong to the key's chain.
  lemma ProbeFailed(tags: seq<nat>, codes: seq<nat>, epoch: nat, dict: map<nat, nat>, place: map<nat, nat>, key: nat,
                    j: nat)
    requires Refines(tags, codes, epoch, dict, place) && key < KEYS && j < HSIZE
    requires Reached(tags, epoch, key, j) && !LiveSlot(tags, epoch, At(Home(key), j))
    requires forall i: nat :: i < j ==> tags[At(Home(key), i)] != Tag(epoch, key)
    ensures key !in dict
  {
    if key in dict {
      TagParts(epoch, key);
      assert LiveSlot(tags, epoch, At(Home(key), place[key]));
    }
  }

  lemma ProbeHit(tags: seq<nat>, codes: seq<nat>, epoch: nat, dict: map<nat, nat>, place: map<nat, nat>, key: nat,
                 slot: nat)
    requires Refines(tags, codes, epoch, dict, place) && key < KEYS && slot < HSIZE
    requires tags[slot] == Tag(epoch, key)
    ensures key in dict && codes[slot] == dict[key]
  {
    TagParts(epoch, key);
    assert LiveSlot(tags, epoch, slot);
  }

  lemma Inserted(tags: seq<nat>, codes: seq<nat>, epoch: nat, dict: map<nat, nat>, place: map<nat, nat>, key: nat,
                 j: nat, code: nat)
    requires Refines(tags, codes, epoch, dict, place) && key < KEYS && j < HSIZE && key !in dict
    requires Reached(tags, epoch, key, j) && !LiveSlot(tags, epoch, At(Home(key), j))
    ensures var s := At(Home(key), j);
            Refines(tags[s := Tag(epoch, key)], codes[s := code], epoch, dict[key := code], place[key := j])
  {
    var s := At(Home(key), j);
    var tags', codes' := tags[s := Tag(epoch, key)], codes[s := code];
    TagParts(epoch, key);
    forall k, i: nat | k in dict && i < place[k]
      ensures LiveSlot(tags', epoch, At(Home(k), i))
    {
      assert LiveSlot(tags, epoch, At(Home(k), i));
    }
    forall i: nat | i < j
      ensures LiveSlot(tags', epoch, At(Home(key), i))
    {
      assert LiveSlot(tags, epoch, At(Home(key), i));
    }
    forall k | k in dict
      ensures At(Home(k), place[k]) != s
    {
      TagParts(epoch, k);
      assert LiveSlot(tags, epoch, At(Home(k), place[k]));
    }
  }

  // Moving to an epoch that no slot carries empties the map.
  lemma Cleared(tags: seq<nat>, codes: seq<nat>, epoch: nat)
    requires |tags| == |codes| == HSIZE && 0 < epoch < EPOCH_MAX
    requires forall s :: 0 <= s < HSIZE ==> tags[s] / KEYS < epoch
    ensures Refines(tags, codes, epoch, map[], map[])
  {
  }

  lemma ReachedNext(tags: seq<nat>, epoch: nat, key: nat, j: nat)
    requires |tags| == HSIZE
    ensures Reached(tags, epoch, key, 0)
    ensures Reached(tags, epoch, key, j) && LiveSlot(tags, epoch, At(Home(key), j)) ==> Reached(tags, epoch, key, j + 1)
  {
  }

  class CodeTable {
    const tags: array<nat>
    const codes: array<nat>
    var epoch: nat
    ghost var dict: map<nat, nat>
    ghost var place: map<nat, nat>

    ghost predicate Valid()
      reads this, tags, codes
    {
      tags != codes && Refines(tags[..], codes[..], epoch, dict, place)
    }

    constructor ()
      ensures Valid() && dict == map[] && fresh(tags) && fresh(codes)
    {
      tags := new nat[HSIZE](_ => 0);
      codes := new nat[HSIZE];
      epoch := 1;
      dict, place := map[], map[];
      new;
      Cleared(tags[..], codes[..], 1);
    }

    // Probe from the key's home slot to its slot or to the first stale one.
    method Lookup(key: nat) returns (found: bool, slot: nat, ghost j: nat)
      requires Valid() && key < KEYS && |dict| < HSIZE
      ensures found == (key in dict)
      ensures j < HSIZE && slot == At(Home(key), j)
      ensures found ==> codes[slot] == dict[key]
      ensures !found ==> Reached(tags[..], epoch, key, j) && !LiveSlot(tags[..], epoch, slot)
    {
      hide At;
      hide Home;
      hide Tag;
      hide Refines;
      hide Reached;
      Sizes(tags[..], codes[..], epoch, dict, place);
      var tag := Tag(epoch, key);
      slot := Home(key);
      var probe := tags[slot];
      ghost var f := FreeSlot(tags[..], codes[..], epoch, dict, place);
      ghost var stop := AtDistance(slot, f);
      j := 0;
      AtNext(slot, 0);
      ghost var home := slot;
      ReachedNext(tags[..], epoch, key, 0);
      while probe != tag && probe / KEYS == epoch
        invariant j <= stop && slot == At(Home(key), j) && probe == tags[slot]
        invariant Reached(tags[..], epoch, key, j)
        invariant forall i: nat :: i < j ==> tags[At(Home(key), i)] != tag
        decreases stop - j
      {
        AtNext(home, j);
        ReachedNext(tags[..], epoch, key, j);
        slot := (slot + 1) % HSIZE;
        probe := tags[slot];
        j := j + 1;
      }
      found := probe == tag;
      if found {
        ProbeHit(tags[..], codes[..], epoch, dict, place, key, slot);
      } else {
        ProbeFailed(tags[..], codes[..], epoch, dict, place, key, j);
      }
    }

    // Write a new entry into the stale slot that its lookup ended at.
    method Insert(key: nat, slot: nat, code: nat, ghost j: nat)
      requires Valid() && key < KEYS && j < HSIZE && slot == At(Home(key), j) && key !in dict
      requires Reached(tags[..], epoch, key, j) && !LiveSlot(tags[..], epoch, slot)
      modifies this, tags, codes
      ensures Valid() && dict == old(dict)[key := code] && epoch == old(epoch)
    {
      Inserted(tags[..], codes[..], epoch, dict, place, key, j, code);
      tags[slot] := Tag(epoch, key);
      codes[slot] := code;
      dict, place := dict[key := code], place[key := j];
      assert tags[..] == old(tags[..])[slot := Tag(epoch, key)];
      assert codes[..] == old(codes[..])[slot := code];
    }

    // Empty the table: a new epoch, and a real reset only when the epochs run out.
    method Clear()
      requires Valid()
      modifies this, tags
      ensures Valid() && dict == map[]
    {
      epoch := epoch + 1;
      if epoch == EPOCH_MAX {
        forall s | 0 <= s < HSIZE {
          tags[s] := 0;
        }
        epoch := 1;
      }
      dict, place := map[], map[];
      Cleared(tags[..], codes[..], epoch);
    }
  }
}
