/** The range instructions: the table written by re_emit_range and the binary
    search over it in Sources/SubstrataQuickJS/libregexp.c decide membership. */
module RegexRanges {
  import opened CharSets
  import opened Common
  import opened RegexSyntax
  import opened RegexCode
  import opened RegexMachine

  lemma {:induction false} ReadTable16(bc: seq<Byte>, p: nat, pt: seq<U32>, i: nat)
    requires |pt| % 2 == 0 && 2 * i < |pt|
    requires StandsAt(bc, p, Table16(pt))
    requires pt[2 * i] <= 0xFFFF && 0 <= High16(pt[2 * i + 1]) <= 0xFFFF
    ensures GetU16(bc, p + 4 * i) == pt[2 * i]
    ensures GetU16(bc, p + 4 * i + 2) == High16(pt[2 * i + 1])
    decreases i
  {
    var lo, hi := U16(pt[0]), U16(High16(pt[1]));
    Parts(bc, p, lo + hi, Table16(pt[2..]));
    if i == 0 {
      Parts(bc, p, lo, hi);
      GetU16Bytes(bc, p, pt[0]);
      GetU16Bytes(bc, p + 2, High16(pt[1]));
    } else {
      ReadTable16(bc, p + 4, pt[2..], i - 1);
    }
  }

  lemma {:induction false} ReadTable32(bc: seq<Byte>, p: nat, pt: seq<U32>, i: nat)
    requires |pt| % 2 == 0 && 2 * i < |pt|
    requires StandsAt(bc, p, Table32(pt)) && pt[2 * i + 1] > 0
    ensures GetU32(bc, p + 8 * i) == pt[2 * i]
    ensures GetU32(bc, p + 8 * i + 4) == pt[2 * i + 1] - 1
    decreases i
  {
    var lo, hi := U32Bytes(pt[0]), U32Bytes(pt[1] as int - 1);
    Parts(bc, p, lo + hi, Table32(pt[2..]));
    if i == 0 {
      Parts(bc, p, lo, hi);
      GetU32Bytes(bc, p, pt[0]);
      GetU32Bytes(bc, p + 4, pt[1] as int - 1);
    } else {
      ReadTable32(bc, p + 8, pt[2..], i - 1);
    }
  }

  /** The table answers every comparison with `c` as the points do. */
  ghost predicate Tabulates(t: seq<Range>, pt: seq<U32>, c: nat) {
    && |t| == |pt| / 2
    && forall i :: 0 <= i < |t| ==> (c < t[i].low <==> c < pt[2 * i]) && (c > t[i].high <==> c >= pt[2 * i + 1])
  }

  /** `c` lies between interval `k - 1` and interval `k`. */
  predicate Between(pt: seq<U32>, k: nat, c: nat) {
    k <= |pt| / 2 && (k > 0 ==> c >= pt[2 * k - 1]) && (k < |pt| / 2 ==> c < pt[2 * k])
  }

  lemma InGap(pt: seq<U32>, k: nat, c: nat)
    requires Canonical(pt) && Between(pt, k, c)
    ensures !In(pt, c)
  {
    forall i | 0 <= i < |pt| / 2
      ensures !(pt[2 * i] <= c < pt[2 * i + 1])
    {
      if i < k {
        assert 2 * i + 1 == 2 * k - 1 || pt[2 * i + 1] < pt[2 * k - 1];
      } else {
        assert i == k || pt[2 * k] < pt[2 * i];
      }
    }
  }

  ghost predicate GapsAreOutside(pt: seq<U32>, c: nat) {
    forall k: nat :: Between(pt, k, c) ==> !In(pt, c)
  }

  /** What is known of `c` when entries `lo` to `hi` are left. */
  ghost predicate Bracketing(pt: seq<U32>, lo: nat, hi: nat, c: nat) {
    && hi < |pt| / 2 && lo <= hi + 1 && pt[0] <= c
    && (lo > 0 ==> c >= pt[2 * lo - 1])
    && (hi + 1 < |pt| / 2 ==> c < pt[2 * hi + 2])
  }

  /** The search finds `c` exactly when it is in the set, and never steps below
      entry 0. */
  lemma {:induction false} SearchFinds(t: seq<Range>, pt: seq<U32>, lo: nat, hi: nat, c: nat)
    requires Bracketing(pt, lo, hi, c) && GapsAreOutside(pt, c) && Tabulates(t, pt, c)
    ensures BinarySearch(t, lo, hi, c) == if In(pt, c) then Yes else No
    decreases hi + 1 - lo
  {
    if lo > hi {
      assert Between(pt, lo, c);
    } else {
      var idx := (lo + hi) / 2;
      SearchSplits(t, pt, lo, hi, idx, c);
      if c < t[idx].low {
        SearchFinds(t, pt, lo, idx - 1, c);
      } else if c > t[idx].high {
        SearchFinds(t, pt, idx + 1, hi, c);
      }
    }
  }

  lemma SearchSplits(t: seq<Range>, pt: seq<U32>, lo: nat, hi: nat, idx: nat, c: nat)
    requires Bracketing(pt, lo, hi, c) && Tabulates(t, pt, c) && lo <= idx <= hi
    ensures c < t[idx].low ==> idx > 0 && Bracketing(pt, lo, idx - 1, c)
    ensures c > t[idx].high ==> Bracketing(pt, idx + 1, hi, c)
    ensures t[idx].low <= c <= t[idx].high ==> In(pt, c)
  {
  }

  lemma SearchAll(t: seq<Range>, pt: seq<U32>, c: nat)
    requires Canonical(pt) && pt != [] && pt[0] <= c
    requires Tabulates(t, pt, c)
    ensures BinarySearch(t, 0, |pt| / 2 - 1, c) == if In(pt, c) then Yes else No
  {
    forall k: nat | Between(pt, k, c)
      ensures !In(pt, c)
    {
      InGap(pt, k, c);
    }
    SearchFinds(t, pt, 0, |pt| / 2 - 1, c);
  }

  lemma OutsideEnds(pt: seq<U32>, c: nat)
    requires Canonical(pt) && pt != []
    requires c < pt[0] || c >= pt[|pt| - 1]
    ensures !In(pt, c)
  {
    InGap(pt, if c < pt[0] then 0 else |pt| / 2, c);
  }

  lemma NarrowPoints(pt: seq<U32>, i: nat)
    requires Canonical(pt) && pt != [] && LastFinite(pt) <= 0xFFFF && i < |pt| / 2
    ensures pt[2 * i] <= 0xFFFF && 0 <= High16(pt[2 * i + 1]) <= 0xFFFF
    ensures pt[2 * i + 1] == UINT32_MAX || High16(pt[2 * i + 1]) == pt[2 * i + 1] - 1 < 0xFFFF
    ensures pt[2 * i + 1] == UINT32_MAX ==> i == |pt| / 2 - 1
  {
    var n := |pt|;
    assert pt[2 * i] <= pt[n - 2];
    assert i < n / 2 - 1 ==> pt[2 * i + 1] < pt[n - 2];
    assert pt[2 * i] < pt[2 * i + 1] <= pt[n - 1];
  }

  lemma TabulatesNarrow(bc: seq<Byte>, p: nat, pt: seq<U32>, c: nat)
    requires Canonical(pt) && pt != [] && c < UINT32_MAX
    requires LastFinite(pt) <= 0xFFFF && StandsAt(bc, p, Table16(pt))
    requires c < 0xFFFF || pt[|pt| - 1] != UINT32_MAX
    ensures Tabulates(Ranges(bc, p, false, |pt| / 2), pt, c)
  {
    var t := Ranges(bc, p, false, |pt| / 2);
    forall i | 0 <= i < |t|
      ensures (c < t[i].low <==> c < pt[2 * i]) && (c > t[i].high <==> c >= pt[2 * i + 1])
    {
      NarrowEntry(bc, p, pt, i);
    }
  }

  lemma LastInterval(pt: seq<U32>, c: nat)
    requires Canonical(pt) && pt != [] && pt[|pt| - 2] <= c < pt[|pt| - 1]
    ensures In(pt, c)
  {
    assert |pt| == 2 * (|pt| / 2 - 1) + 2;
    assert pt[2 * (|pt| / 2 - 1)] <= c < pt[2 * (|pt| / 2 - 1) + 1];
  }

  lemma NarrowEntry(bc: seq<Byte>, p: nat, pt: seq<U32>, i: nat)
    requires Canonical(pt) && pt != [] && i < |pt| / 2
    requires LastFinite(pt) <= 0xFFFF && StandsAt(bc, p, Table16(pt))
    ensures Ranges(bc, p, false, |pt| / 2)[i].low == pt[2 * i] <= 0xFFFF
    ensures Ranges(bc, p, false, |pt| / 2)[i].high == High16(pt[2 * i + 1])
    ensures pt[2 * i + 1] != UINT32_MAX ==> High16(pt[2 * i + 1]) == pt[2 * i + 1] - 1 < 0xFFFF
    ensures pt[2 * i + 1] == UINT32_MAX ==> i == |pt| / 2 - 1
  {
    NarrowPoints(pt, i);
    ReadTable16(bc, p, pt, i);
  }

  lemma NarrowEnds(bc: seq<Byte>, p: nat, pt: seq<U32>)
    requires Canonical(pt) && pt != []
    requires LastFinite(pt) <= 0xFFFF && StandsAt(bc, p, Table16(pt))
    ensures Ranges(bc, p, false, |pt| / 2)[0].low == pt[0]
    ensures pt[|pt| - 2] <= 0xFFFF
    ensures Ranges(bc, p, false, |pt| / 2)[|pt| / 2 - 1].high == High16(pt[|pt| - 1])
    ensures pt[|pt| - 1] != UINT32_MAX ==> High16(pt[|pt| - 1]) < 0xFFFF
  {
    var n := |pt| / 2;
    NarrowEntry(bc, p, pt, 0);
    NarrowLast(bc, p, pt, n - 1);
  }

  lemma NarrowLast(bc: seq<Byte>, p: nat, pt: seq<U32>, i: nat)
    requires Canonical(pt) && pt != [] && 2 * i + 2 == |pt|
    requires LastFinite(pt) <= 0xFFFF && StandsAt(bc, p, Table16(pt))
    ensures pt[|pt| - 2] <= 0xFFFF
    ensures Ranges(bc, p, false, |pt| / 2)[i].high == High16(pt[|pt| - 1])
    ensures pt[|pt| - 1] != UINT32_MAX ==> High16(pt[|pt| - 1]) < 0xFFFF
  {
    NarrowEntry(bc, p, pt, i);
  }

  lemma Narrow(bc: seq<Byte>, p: nat, pt: seq<U32>, c: nat)
    requires Canonical(pt) && pt != [] && c < UINT32_MAX
    requires LastFinite(pt) <= 0xFFFF && StandsAt(bc, p, Table16(pt))
    ensures RangeSearch(Ranges(bc, p, false, |pt| / 2), false, c) == if In(pt, c) then Yes else No
  {
    if c < 0xFFFF || pt[|pt| - 1] != UINT32_MAX {
      NarrowFinite(bc, p, pt, c);
    } else {
      NarrowEnds(bc, p, pt);
      SearchInfinite(Ranges(bc, p, false, |pt| / 2), pt, c);
    }
  }

  lemma NarrowFinite(bc: seq<Byte>, p: nat, pt: seq<U32>, c: nat)
    requires Canonical(pt) && pt != [] && c < UINT32_MAX
    requires LastFinite(pt) <= 0xFFFF && StandsAt(bc, p, Table16(pt))
    requires c < 0xFFFF || pt[|pt| - 1] != UINT32_MAX
    ensures RangeSearch(Ranges(bc, p, false, |pt| / 2), false, c) == if In(pt, c) then Yes else No
  {
    NarrowEnds(bc, p, pt);
    TabulatesNarrow(bc, p, pt, c);
    SearchTable(Ranges(bc, p, false, |pt| / 2), false, pt, c);
  }

  lemma SearchInfinite(t: seq<Range>, pt: seq<U32>, c: nat)
    requires Canonical(pt) && pt != [] && |t| == |pt| / 2
    requires pt[|pt| - 2] <= 0xFFFF <= c < pt[|pt| - 1]
    requires t[0].low == pt[0] && t[|t| - 1].high == 0xFFFF
    ensures RangeSearch(t, false, c) == Yes && In(pt, c)
  {
    LastInterval(pt, c);
    assert pt[0] <= pt[|pt| - 2];
  }

  lemma SearchTable(t: seq<Range>, wide: bool, pt: seq<U32>, c: nat)
    requires Canonical(pt) && pt != [] && Tabulates(t, pt, c)
    requires !wide && c >= 0xFFFF ==> t[|t| - 1].high != 0xFFFF
    ensures RangeSearch(t, wide, c) == if In(pt, c) then Yes else No
  {
    assert c > t[|t| - 1].high <==> c >= pt[2 * (|t| - 1) + 1];
    if c < pt[0] || c >= pt[|pt| - 1] { OutsideEnds(pt, c); } else { SearchAll(t, pt, c); }
  }

  lemma TabulatesWide(bc: seq<Byte>, p: nat, pt: seq<U32>, c: nat)
    requires Canonical(pt) && pt != [] && StandsAt(bc, p, Table32(pt))
    ensures Tabulates(Ranges(bc, p, true, |pt| / 2), pt, c)
  {
    var t := Ranges(bc, p, true, |pt| / 2);
    forall i | 0 <= i < |t|
      ensures (c < t[i].low <==> c < pt[2 * i]) && (c > t[i].high <==> c >= pt[2 * i + 1])
    {
      assert pt[2 * i] < pt[2 * i + 1];
      ReadTable32(bc, p, pt, i);
    }
  }

  lemma Wide(bc: seq<Byte>, p: nat, pt: seq<U32>, c: nat)
    requires Canonical(pt) && pt != [] && StandsAt(bc, p, Table32(pt))
    ensures RangeSearch(Ranges(bc, p, true, |pt| / 2), true, c) == if In(pt, c) then Yes else No
  {
    TabulatesWide(bc, p, pt, c);
    SearchTable(Ranges(bc, p, true, |pt| / 2), true, pt, c);
  }

  /** The instruction emitted for a set accepts exactly the characters in it,
      for every character below the point that stands for infinity. */
  lemma RangeInstruction(bc: seq<Byte>, p: nat, pt: seq<U32>, inp: Input, cptr: nat)
    requires Canonical(pt) && |pt| / 2 < 65535
    requires StandsAt(bc, p, RangeCode(pt))
    requires cptr < |inp.cbuf|
    ensures SimpleStep(bc, p, inp, cptr) == Test(In(pt, inp.cbuf[cptr]), p + |RangeCode(pt)|, cptr + 1)
  {
    if pt == [] {
      Parts(bc, p, [OP_CHAR32], U32Bytes(-1));
      GetU32Bytes(bc, p + 1, -1);
      ByteOf(bc, p, [OP_CHAR32], 0);
    } else if LastFinite(pt) <= 0xFFFF {
      NarrowInstruction(bc, p, pt, inp, cptr);
    } else {
      WideInstruction(bc, p, pt, inp, cptr);
    }
  }

  lemma RangeStepAt(bc: seq<Byte>, p: nat, wide: bool, n: nat, inp: Input, cptr: nat, found: bool)
    requires p + 3 <= |bc| && bc[p] == (if wide then OP_RANGE32 else OP_RANGE)
    requires GetU16(bc, p + 1) == n > 0 && p + 3 + TableSize(wide, n) <= |bc|
    requires cptr < |inp.cbuf|
    requires RangeSearch(Ranges(bc, p + 3, wide, n), wide, inp.cbuf[cptr]) == if found then Yes else No
    ensures SimpleStep(bc, p, inp, cptr) == Test(found, p + 3 + TableSize(wide, n), cptr + 1)
  {
  }

  lemma NarrowInstruction(bc: seq<Byte>, p: nat, pt: seq<U32>, inp: Input, cptr: nat)
    requires Canonical(pt) && pt != [] && |pt| / 2 < 65535
    requires StandsAt(bc, p, [OP_RANGE] + U16(|pt| / 2) + Table16(pt)) && LastFinite(pt) <= 0xFFFF
    requires cptr < |inp.cbuf|
    ensures SimpleStep(bc, p, inp, cptr) == Test(In(pt, inp.cbuf[cptr]), p + 3 + 2 * |pt|, cptr + 1)
  {
    TableParts(bc, p, OP_RANGE, |pt| / 2, Table16(pt));
    Narrow(bc, p + 3, pt, inp.cbuf[cptr]);
    RangeStepAt(bc, p, false, |pt| / 2, inp, cptr, In(pt, inp.cbuf[cptr]));
  }

  lemma WideInstruction(bc: seq<Byte>, p: nat, pt: seq<U32>, inp: Input, cptr: nat)
    requires Canonical(pt) && pt != [] && |pt| / 2 < 65535
    requires StandsAt(bc, p, [OP_RANGE32] + U16(|pt| / 2) + Table32(pt))
    requires cptr < |inp.cbuf|
    ensures SimpleStep(bc, p, inp, cptr) == Test(In(pt, inp.cbuf[cptr]), p + 3 + 4 * |pt|, cptr + 1)
  {
    TableParts(bc, p, OP_RANGE32, |pt| / 2, Table32(pt));
    Wide(bc, p + 3, pt, inp.cbuf[cptr]);
    RangeStepAt(bc, p, true, |pt| / 2, inp, cptr, In(pt, inp.cbuf[cptr]));
  }

  lemma TableParts(bc: seq<Byte>, p: nat, op: Byte, n: nat, table: seq<Byte>)
    requires StandsAt(bc, p, [op] + U16(n) + table) && n < 0x1_0000
    ensures p < |bc| && bc[p] == op
    ensures StandsAt(bc, p + 1, U16(n)) && GetU16(bc, p + 1) == n
    ensures StandsAt(bc, p + 3, table)
  {
    Parts(bc, p, [op] + U16(n), table);
    Parts(bc, p, [op], U16(n));
    GetU16Bytes(bc, p + 1, n);
    ByteOf(bc, p, [op], 0);
  }
}
