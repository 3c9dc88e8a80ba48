/** Long File Name reassembly (the "FAT Long Directory Entries" section of Microsoft's FAT32 File
    System Specification): each fragment slot carries 13 UTF-16 units, placed in a 260-unit
    buffer at `(ordinal - 1) * 13`. */
module LongNames {
  import opened Bytes
  import opened Entries

  const LFN_MAX_ENTRIES: nat := 20
  const LFN_CHARS_PER_ENTRY: nat := 13
  const LFN_BUFFER_LENGTH: nat := 260
  const LFN_UNUSED_CHAR: u16 := 0xFFFF
  const LFN_SEQ_NUM_MASK: nat := 0x1F
  const LFN_DELETED_ENTRY: u8 := 0xE5

  /** The name buffer after `memset(lfn, 0, ...)`. */
  function EmptyLfn(): (r: seq<u16>)
    ensures |r| == LFN_BUFFER_LENGTH && forall i :: 0 <= i < LFN_BUFFER_LENGTH ==> r[i] == 0
  {
    seq(LFN_BUFFER_LENGTH, _ => 0)
  }

  /** A padding unit becomes NUL; every other unit is kept. */
  function Unfill(u: u16): u16
  {
    if u == LFN_UNUSED_CHAR then 0 else u
  }

  /** The little-endian UTF-16 units stored in `data`, `|data| / 2` of them. */
  function Units(data: seq<u8>): (r: seq<u16>)
    ensures |r| == |data| / 2
  {
    seq(|data| / 2, i requires 0 <= i < |data| / 2 => LE16(data, 2 * i))
  }

  /** `lfn` after the units of `data` were copied to `lfn[start..start + |data| / 2]`, each
      0xFFFF unit as NUL; all other units unchanged. */
  function Put(lfn: seq<u16>, start: nat, data: seq<u8>): (r: seq<u16>)
    requires start + |data| / 2 <= |lfn|
    ensures |r| == |lfn|
  {
    seq(|lfn|, i requires 0 <= i < |lfn| => PutAt(lfn, start, data, i))
  }

  function PutAt(lfn: seq<u16>, start: nat, data: seq<u8>, i: nat): u16
    requires start + |data| / 2 <= |lfn| && i < |lfn|
  {
    if start <= i < start + |data| / 2 then Unfill(Units(data)[i - start]) else lfn[i]
  }

  /** `lfn_put_data(buffer, buffer_size, lfn, start_idx)`: copies `buffer_size / 2` units
      and returns the advanced index (`*start_idx = end_idx`). */
  method LfnPutData(data: seq<u8>, lfn: array<u16>, start: nat) returns (end: nat)
    requires start + |data| / 2 <= lfn.Length
    modifies lfn
    ensures end == start + |data| / 2
    ensures lfn[..] == Put(old(lfn[..]), start, data)
    ensures forall i :: start <= i < end ==>
              var lo, hi := data[2 * (i - start)], data[2 * (i - start) + 1];
              lfn[i] as int == if lo == 0xFF && hi == 0xFF then 0 else lo as int + 0x100 * hi as int
    ensures forall i :: 0 <= i < lfn.Length && !(start <= i < end) ==> lfn[i] == old(lfn[i])
  {
    var count := |data| / 2;
    end := start + count;
    var i := start;
    while i < end
      invariant start <= i <= end
      invariant forall j :: start <= j < i ==> lfn[j] == Unfill(Units(data)[j - start])
      invariant forall j :: 0 <= j < lfn.Length && !(start <= j < i) ==> lfn[j] == old(lfn[j])
    {
      var wc := LE16(data, 2 * (i - start));
      lfn[i] := if wc != LFN_UNUSED_CHAR then wc else 0;
      i := i + 1;
    }
  }

  // ---------------------------------------------------------------------------------------
  // One fragment (`lfn_entry_t`): sequence number at 0, units at 1..11, 14..26 and 28..32.

  /** `sequence_num & LFN_SEQ_NUM_MASK`. */
  function Ordinal(e: Slot): nat
  {
    e[0] % (LFN_SEQ_NUM_MASK + 1)
  }

  /** A fragment that is not deleted and whose ordinal lies in 1..20. */
  predicate Accepted(e: Slot)
  {
    e[0] != LFN_DELETED_ENTRY && 0 < Ordinal(e) <= LFN_MAX_ENTRIES
  }

  /** Where an accepted fragment's units go. */
  function Base(e: Slot): nat
    requires 0 < Ordinal(e)
  {
    (Ordinal(e) - 1) * LFN_CHARS_PER_ENTRY
  }

  /** The 13 units of a fragment, in name order (5 + 6 + 2). */
  function FragmentUnits(e: Slot): (r: seq<u16>)
    ensures |r| == LFN_CHARS_PER_ENTRY
  {
    Units(e[1..11]) + Units(e[14..26]) + Units(e[28..32])
  }

  /** Whether an accepted fragment writes unit `i` of the buffer. */
  predicate Covers(e: Slot, i: int)
  {
    Accepted(e) && Base(e) <= i < Base(e) + LFN_CHARS_PER_ENTRY
  }

  /** The name buffer after the long-name branch of `fat_read_entry` handled fragment `e`. */
  function ApplyFragment(lfn: seq<u16>, e: Slot): (r: seq<u16>)
    requires |lfn| == LFN_BUFFER_LENGTH
    ensures |r| == LFN_BUFFER_LENGTH
  {
    if !Accepted(e) then lfn
    else
      var idx := Base(e);
      Put(Put(Put(lfn, idx, e[1..11]), idx + 5, e[14..26]), idx + 11, e[28..32])
  }

  /** A deleted fragment or one with ordinal 0 or above 20 leaves the buffer unchanged; any other
      writes exactly the units `[(ordinal - 1) * 13, ordinal * 13)`, inside the buffer, with its
      own units in order and 0xFFFF as NUL. */
  lemma ApplyFragmentAt(lfn: seq<u16>, e: Slot, i: nat)
    requires |lfn| == LFN_BUFFER_LENGTH && i < LFN_BUFFER_LENGTH
    ensures Accepted(e) ==> Base(e) + LFN_CHARS_PER_ENTRY <= LFN_BUFFER_LENGTH
    ensures ApplyFragment(lfn, e)[i] ==
              if Covers(e, i) then Unfill(FragmentUnits(e)[i - Base(e)]) else lfn[i]
  {
    if Covers(e, i) {
      var t := i - Base(e);
      var u := FragmentUnits(e);
      if t < 5 {
        assert u[t] == Units(e[1..11])[t];
      } else if t < 11 {
        assert u[t] == Units(e[14..26])[t - 5];
      } else {
        assert u[t] == Units(e[28..32])[t - 11];
      }
    }
  }

  /** Fragments with different ordinals can be applied in either order. */
  lemma FragmentsCommute(lfn: seq<u16>, a: Slot, b: Slot)
    requires |lfn| == LFN_BUFFER_LENGTH
    requires !Accepted(a) || !Accepted(b) || Ordinal(a) != Ordinal(b)
    ensures ApplyFragment(ApplyFragment(lfn, a), b) == ApplyFragment(ApplyFragment(lfn, b), a)
  {
    var ab, ba := ApplyFragment(ApplyFragment(lfn, a), b), ApplyFragment(ApplyFragment(lfn, b), a);
    forall i | 0 <= i < LFN_BUFFER_LENGTH
      ensures ab[i] == ba[i]
    {
      ApplyFragmentAt(lfn, a, i);
      ApplyFragmentAt(lfn, b, i);
      ApplyFragmentAt(ApplyFragment(lfn, a), b, i);
      ApplyFragmentAt(ApplyFragment(lfn, b), a, i);
    }
  }

  /** The long-name branch of `fat_read_entry` for one fragment: the ordinal check and the three
      `lfn_put_data` calls. */
  method PutFragment(e: Slot, lfn: array<u16>)
    requires lfn.Length == LFN_BUFFER_LENGTH
    modifies lfn
    ensures lfn[..] == ApplyFragment(old(lfn[..]), e)
  {
    var seqnum := e[0] % (LFN_SEQ_NUM_MASK + 1);
    if e[0] != LFN_DELETED_ENTRY && seqnum <= LFN_MAX_ENTRIES && seqnum > 0 {
      var idx := (seqnum - 1) * LFN_CHARS_PER_ENTRY;
      ghost var s0 := lfn[..];
      assert idx == Base(e) && Accepted(e);
      idx := LfnPutData(e[1..11], lfn, idx);
      ghost var s1 := lfn[..];
      assert s1 == Put(s0, Base(e), e[1..11]);
      idx := LfnPutData(e[14..26], lfn, idx);
      ghost var s2 := lfn[..];
      assert s2 == Put(s1, Base(e) + 5, e[14..26]);
      idx := LfnPutData(e[28..32], lfn, idx);
      assert lfn[..] == Put(s2, Base(e) + 11, e[28..32]);
    }
  }

  // ---------------------------------------------------------------------------------------
  // A run of fragments.

  /** The buffer after the fragments `frags` were handled in arrival order. */
  function ApplyAll(lfn: seq<u16>, frags: seq<Slot>): (r: seq<u16>)
    requires |lfn| == LFN_BUFFER_LENGTH
    ensures |r| == LFN_BUFFER_LENGTH
    decreases |frags|
  {
    if frags == [] then lfn else ApplyAll(ApplyFragment(lfn, frags[0]), frags[1..])
  }

  /** No two accepted fragments share an ordinal. */
  predicate DistinctOrdinals(frags: seq<Slot>)
  {
    forall j, k :: 0 <= j < k < |frags| && Accepted(frags[j]) && Accepted(frags[k]) ==>
      Ordinal(frags[j]) != Ordinal(frags[k])
  }

  /** Two accepted fragments whose ranges share a unit have the same ordinal. */
  lemma CoversSameOrdinal(a: Slot, b: Slot, i: int)
    requires Covers(a, i) && Covers(b, i)
    ensures Ordinal(a) == Ordinal(b)
  {
  }

  /** With distinct ordinals, the arrival order does not matter: each unit of the buffer comes
      from the one fragment whose range covers it, or is left as it was. */
  lemma {:induction false} ApplyAllAt(lfn: seq<u16>, frags: seq<Slot>, i: nat)
    requires |lfn| == LFN_BUFFER_LENGTH && i < LFN_BUFFER_LENGTH
    requires DistinctOrdinals(frags)
    ensures forall j :: 0 <= j < |frags| && Covers(frags[j], i) ==>
              ApplyAll(lfn, frags)[i] == Unfill(FragmentUnits(frags[j])[i - Base(frags[j])])
    ensures (forall j :: 0 <= j < |frags| ==> !Covers(frags[j], i)) ==> ApplyAll(lfn, frags)[i] == lfn[i]
    decreases |frags|
  {
    if frags != [] {
      var first := ApplyFragment(lfn, frags[0]);
      var rest := frags[1..];
      assert DistinctOrdinals(rest) by {
        forall j, k | 0 <= j < k < |rest| && Accepted(rest[j]) && Accepted(rest[k])
          ensures Ordinal(rest[j]) != Ordinal(rest[k])
        {
          assert rest[j] == frags[j + 1] && rest[k] == frags[k + 1];
        }
      }
      ApplyAllAt(first, rest, i);
      ApplyFragmentAt(lfn, frags[0], i);
      assert ApplyAll(lfn, frags) == ApplyAll(first, rest);
      forall j | 0 <= j < |frags| && Covers(frags[j], i)
        ensures ApplyAll(lfn, frags)[i] == Unfill(FragmentUnits(frags[j])[i - Base(frags[j])])
      {
        if j == 0 {
          forall k | 0 <= k < |rest|
            ensures !Covers(rest[k], i)
          {
            assert rest[k] == frags[k + 1];
            if Covers(rest[k], i) {
              CoversSameOrdinal(frags[0], rest[k], i);
            }
          }
        } else {
          assert rest[j - 1] == frags[j];
        }
      }
      if forall j :: 0 <= j < |frags| ==> !Covers(frags[j], i) {
        forall k | 0 <= k < |rest|
          ensures !Covers(rest[k], i)
        {
          assert rest[k] == frags[k + 1];
        }
      }
    }
  }

  /** The ordinals of the accepted fragments of a run. */
  function Ordinals(frags: seq<Slot>): set<nat>
  {
    set j | 0 <= j < |frags| && Accepted(frags[j]) :: Ordinal(frags[j])
  }

  /** A run of k accepted fragments carrying the ordinals 1..k, each once, in any order. Their
      units may be anything, NUL and 0xFFFF padding included. */
  predicate OrdinalRun(frags: seq<Slot>, k: nat)
  {
    && |frags| == k
    && (forall j :: 0 <= j < k ==> Accepted(frags[j]) && Ordinal(frags[j]) <= k)
    && DistinctOrdinals(frags)
    && (forall p :: 1 <= p <= k ==> p in Ordinals(frags))
  }

  /** The 13 units a fragment contributes to the name, 0xFFFF read as NUL. */
  function Unfilled(e: Slot): (r: seq<u16>)
    ensures |r| == LFN_CHARS_PER_ENTRY
  {
    seq(LFN_CHARS_PER_ENTRY, t requires 0 <= t < LFN_CHARS_PER_ENTRY => Unfill(FragmentUnits(e)[t]))
  }

  /** The units of the first accepted fragment with ordinal `p`, or 13 NULs if there is none. */
  function UnitsOf(frags: seq<Slot>, p: nat): (r: seq<u16>)
    ensures |r| == LFN_CHARS_PER_ENTRY
    decreases |frags|
  {
    if frags == [] then seq(LFN_CHARS_PER_ENTRY, _ => 0)
    else if Accepted(frags[0]) && Ordinal(frags[0]) == p then Unfilled(frags[0])
    else UnitsOf(frags[1..], p)
  }

  /** The fragments' units concatenated in ordinal order 1..k: the name a run spells, defined
      without the buffer. */
  function InOrder(frags: seq<Slot>, k: nat): (r: seq<u16>)
    ensures |r| == k * LFN_CHARS_PER_ENTRY
  {
    if k == 0 then [] else InOrder(frags, k - 1) + UnitsOf(frags, k)
  }

  /** Unit i of the concatenation is unit i % 13 of the fragment with ordinal i / 13 + 1. */
  lemma {:induction false} InOrderAt(frags: seq<Slot>, k: nat, i: nat)
    requires i < k * LFN_CHARS_PER_ENTRY
    ensures InOrder(frags, k)[i] == UnitsOf(frags, i / LFN_CHARS_PER_ENTRY + 1)[i % LFN_CHARS_PER_ENTRY]
  {
    if i < (k - 1) * LFN_CHARS_PER_ENTRY {
      InOrderAt(frags, k - 1, i);
    } else {
      assert i / LFN_CHARS_PER_ENTRY == k - 1;
    }
  }

  lemma DistinctOrdinalsTail(frags: seq<Slot>)
    requires frags != [] && DistinctOrdinals(frags)
    ensures DistinctOrdinals(frags[1..])
  {
    var rest := frags[1..];
    forall j, k | 0 <= j < k < |rest| && Accepted(rest[j]) && Accepted(rest[k])
      ensures Ordinal(rest[j]) != Ordinal(rest[k])
    {
      assert rest[j] == frags[j + 1] && rest[k] == frags[k + 1];
    }
  }

  /** With distinct ordinals, an accepted fragment is the one `UnitsOf` finds for its ordinal. */
  lemma {:induction false} UnitsOfAt(frags: seq<Slot>, j: nat)
    requires DistinctOrdinals(frags) && j < |frags| && Accepted(frags[j])
    ensures UnitsOf(frags, Ordinal(frags[j])) == Unfilled(frags[j])
    decreases j
  {
    if j > 0 {
      DistinctOrdinalsTail(frags);
      assert frags[1..][j - 1] == frags[j];
      UnitsOfAt(frags[1..], j - 1);
    }
  }

  /** Unit i lies in the range of ordinal i / 13 + 1, at offset i % 13. */
  lemma BaseOfIndex(i: nat)
    ensures (i / LFN_CHARS_PER_ENTRY) * LFN_CHARS_PER_ENTRY + i % LFN_CHARS_PER_ENTRY == i
    ensures 0 <= i % LFN_CHARS_PER_ENTRY < LFN_CHARS_PER_ENTRY
  {
  }

  /** Unit i of the buffer, inside the range of the fragment with ordinal i / 13 + 1, is unit
      i of the concatenation. */
  lemma RunBufferCovered(frags: seq<Slot>, k: nat, i: nat, j: nat)
    requires OrdinalRun(frags, k) && i < LFN_BUFFER_LENGTH && i < k * LFN_CHARS_PER_ENTRY
    requires j < |frags| && Ordinal(frags[j]) == i / LFN_CHARS_PER_ENTRY + 1
    ensures ApplyAll(EmptyLfn(), frags)[i] == InOrder(frags, k)[i]
  {
    var e := frags[j];
    var t := i % LFN_CHARS_PER_ENTRY;
    BaseOfIndex(i);
    assert Covers(e, i) && i - Base(e) == t;
    InOrderAt(frags, k, i);
    UnitsOfAt(frags, j);
    assert InOrder(frags, k)[i] == Unfill(FragmentUnits(e)[t]);
    ApplyAllAt(EmptyLfn(), frags, i);
  }

  /** The buffer built from a run with ordinals 1..k holds the ordinal-order concatenation in
      its first 13 * k units and NUL in the rest. */
  lemma RunBuffer(frags: seq<Slot>, k: nat, i: nat)
    requires OrdinalRun(frags, k) && i < LFN_BUFFER_LENGTH
    ensures var buf := ApplyAll(EmptyLfn(), frags);
            && (i < k * LFN_CHARS_PER_ENTRY ==> buf[i] == InOrder(frags, k)[i])
            && (i >= k * LFN_CHARS_PER_ENTRY ==> buf[i] == 0)
  {
    if i < k * LFN_CHARS_PER_ENTRY {
      var p := i / LFN_CHARS_PER_ENTRY + 1;
      assert p in Ordinals(frags);
      var j :| 0 <= j < |frags| && Accepted(frags[j]) && Ordinal(frags[j]) == p;
      RunBufferCovered(frags, k, i, j);
    } else {
      ApplyAllAt(EmptyLfn(), frags, i);
      forall j | 0 <= j < |frags|
        ensures !Covers(frags[j], i)
      {
      }
    }
  }

  /** Reassembly: for fragments with ordinals 1..k in any arrival order, where `n` is the index
      of the first NUL of their ordinal-order concatenation (or its length), the name shown is
      that concatenation cut at `n` and at 255 units; a last fragment ending in NUL and 0xFFFF
      padding is cut at the NUL. When the concatenation starts with NUL the short name is shown,
      as with no fragments at all. */
  lemma ReassembledName(frags: seq<Slot>, k: nat, n: nat, e: Slot)
    requires 0 < k && OrdinalRun(frags, k)
    requires n <= k * LFN_CHARS_PER_ENTRY
    requires forall i :: 0 <= i < n ==> InOrder(frags, k)[i] != 0
    requires n < k * LFN_CHARS_PER_ENTRY ==> InOrder(frags, k)[n] == 0
    ensures var buf := ApplyAll(EmptyLfn(), frags);
            && (n == 0 ==> DisplayName(e, buf) == DisplayName(e, EmptyLfn()))
            && (n > 0 ==> DisplayName(e, buf) == Long(InOrder(frags, k)[..if n < 255 then n else 255]))
  {
    var buf := ApplyAll(EmptyLfn(), frags);
    var name := InOrder(frags, k);
    assert k in Ordinals(frags);
    if n == 0 {
      RunBuffer(frags, k, 0);
    } else {
      var m := if n < 255 then n else 255;
      forall i | 0 <= i < m
        ensures buf[i] == name[i]
      {
        RunBuffer(frags, k, i);
      }
      if m < 255 && m < LFN_BUFFER_LENGTH {
        RunBuffer(frags, k, m);
      }
      assert buf[..m] == name[..m];
      StrnStopsAt(buf, 0, 255, m);
    }
  }
}
