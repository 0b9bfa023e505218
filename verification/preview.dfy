/** The change preview shown before a patch is written: the regions where
    two byte strings differ, and a one-line summary of them. */
module Preview {
  import opened Encoding

  /** One region of difference: the bytes of each side starting at `offset`. */
  datatype ByteChange = ByteChange(offset: nat, oldBytes: seq<Byte>, newBytes: seq<Byte>)

  function Min(a: nat, b: nat): nat
  {
    if a <= b then a else b
  }

  /** The first index past a region, counted on the old side. */
  function End(c: ByteChange): nat
  {
    c.offset + |c.oldBytes|
  }

  /** The inner scan: extends a region while the current byte differs, or
      the next one (below `m`) does, so one equal byte never splits a
      region but two in a row end it. */
  function RegionEnd(before: seq<Byte>, after: seq<Byte>, e: nat, m: nat): (r: nat)
    requires e <= m <= |before| && m <= |after|
    ensures e <= r <= m
    ensures e < m && before[e] != after[e] ==> r > e
    ensures r < m ==> before[r] == after[r] && (r + 1 < m ==> before[r + 1] == after[r + 1])
    ensures forall k :: e <= k < r ==> before[k] != after[k] || (k + 1 < m && before[k + 1] != after[k + 1])
    ensures r > e ==> before[r - 1] != after[r - 1]
    decreases m - e
  {
    if e < m && (before[e] != after[e] || (e + 1 < m && before[e + 1] != after[e + 1])) then
      var r := RegionEnd(before, after, e + 1, m);
      assert r == e + 1 ==> before[e] != after[e];
      r
    else e
  }

  /** The outer scan from index `i` over the first `m` bytes of both sides. */
  function Scan(before: seq<Byte>, after: seq<Byte>, i: nat, m: nat): (rs: seq<ByteChange>)
    requires i <= m <= |before| && m <= |after|
    decreases m - i
  {
    if i == m then []
    else if before[i] != after[i] then
      var e := RegionEnd(before, after, i, m);
      [ByteChange(i, before[i..e], after[i..e])] + Scan(before, after, e, m)
    else Scan(before, after, i + 1, m)
  }

  /** The extra region for a length difference: the longer side's suffix
      past the shorter length, against nothing. */
  function TailChange(before: seq<Byte>, after: seq<Byte>): (rs: seq<ByteChange>)
    ensures |before| == |after| <==> rs == []
    ensures |after| > |before| ==> rs == [ByteChange(|before|, [], after[|before|..])]
    ensures |before| > |after| ==> rs == [ByteChange(|after|, before[|after|..], [])]
  {
    if |before| == |after| then []
    else if |after| > |before| then [ByteChange(|before|, [], after[|before|..])]
    else [ByteChange(|after|, before[|after|..], [])]
  }

  /** All regions of difference: those of the shared prefix, then the
      length difference. There are none exactly when the buffers are equal. */
  function FindChanges(before: seq<Byte>, after: seq<Byte>): (rs: seq<ByteChange>)
    ensures rs == [] <==> before == after
  {
    var m := Min(|before|, |after|);
    NoChangesIffEqual(before, after);
    Scan(before, after, 0, m) + TailChange(before, after)
  }

  /** A region of the overlapping-prefix scan: it lies below `m`, holds the
      same number of bytes of each side, copies them, starts and ends on a
      differing byte, and never contains two equal bytes in a row. */
  predicate PrefixRegion(before: seq<Byte>, after: seq<Byte>, m: nat, c: ByteChange)
    requires m <= |before| && m <= |after|
  {
    && c.offset < m
    && |c.oldBytes| == |c.newBytes| >= 1
    && End(c) <= m
    && c.oldBytes == before[c.offset..End(c)]
    && c.newBytes == after[c.offset..End(c)]
    && before[c.offset] != after[c.offset]
    && before[End(c) - 1] != after[End(c) - 1]
    && forall k :: c.offset <= k < End(c) - 1 ==> before[k] != after[k] || before[k + 1] != after[k + 1]
  }

  /** Index `x` lies inside some region of `rs`. */
  predicate Covered(rs: seq<ByteChange>, x: nat)
  {
    exists j :: 0 <= j < |rs| && rs[j].offset <= x < End(rs[j])
  }

  /** Every region of the scan from `i` is a prefix region at or after `i`. */
  lemma {:induction false} ScanRegions(before: seq<Byte>, after: seq<Byte>, i: nat, m: nat)
    requires i <= m <= |before| && m <= |after|
    ensures forall j :: 0 <= j < |Scan(before, after, i, m)| ==>
              PrefixRegion(before, after, m, Scan(before, after, i, m)[j]) && Scan(before, after, i, m)[j].offset >= i
    decreases m - i
  {
    if i < m {
      if before[i] != after[i] {
        var e := RegionEnd(before, after, i, m);
        ScanRegions(before, after, e, m);
        var c := ByteChange(i, before[i..e], after[i..e]);
        assert PrefixRegion(before, after, m, c);
      } else {
        ScanRegions(before, after, i + 1, m);
      }
    }
  }

  /** Regions come in increasing order with at least two bytes between one
      region's end and the next region's start. */
  lemma {:induction false} ScanSeparated(before: seq<Byte>, after: seq<Byte>, i: nat, m: nat)
    requires i <= m <= |before| && m <= |after|
    ensures forall j, k :: 0 <= j < k < |Scan(before, after, i, m)| ==>
              End(Scan(before, after, i, m)[j]) + 2 <= Scan(before, after, i, m)[k].offset
    decreases m - i
  {
    if i < m {
      if before[i] != after[i] {
        var e := RegionEnd(before, after, i, m);
        var rest := Scan(before, after, e, m);
        ScanSeparated(before, after, e, m);
        ScanRegions(before, after, e, m);
        forall k | 0 <= k < |rest|
          ensures e + 2 <= rest[k].offset
        {
          assert PrefixRegion(before, after, m, rest[k]);
        }
      } else {
        ScanSeparated(before, after, i + 1, m);
      }
    }
  }

  /** A covered index stays covered when a region is put in front. */
  lemma CoveredCons(c: ByteChange, rest: seq<ByteChange>, x: nat)
    requires Covered(rest, x)
    ensures Covered([c] + rest, x)
  {
    var j :| 0 <= j < |rest| && rest[j].offset <= x < End(rest[j]);
    assert ([c] + rest)[j + 1] == rest[j];
  }

  /** Every differing index at or after `i` and below `m` is inside a region. */
  lemma {:induction false} ScanCovers(before: seq<Byte>, after: seq<Byte>, i: nat, m: nat)
    requires i <= m <= |before| && m <= |after|
    ensures forall x :: i <= x < m && before[x] != after[x] ==> Covered(Scan(before, after, i, m), x)
    decreases m - i
  {
    if i < m {
      var rs := Scan(before, after, i, m);
      if before[i] != after[i] {
        var e := RegionEnd(before, after, i, m);
        var c := ByteChange(i, before[i..e], after[i..e]);
        var rest := Scan(before, after, e, m);
        ScanCovers(before, after, e, m);
        assert rs == [c] + rest;
        forall x | i <= x < m && before[x] != after[x]
          ensures Covered(rs, x)
        {
          if x < e {
            assert rs[0] == c && End(c) == e;
          } else {
            CoveredCons(c, rest, x);
          }
        }
      } else {
        ScanCovers(before, after, i + 1, m);
      }
    }
  }

  /** Two identical buffers have no differences at all. */
  lemma {:induction false} ScanSame(x: seq<Byte>, i: nat, m: nat)
    requires i <= m <= |x|
    ensures Scan(x, x, i, m) == []
    decreases m - i
  {
    if i < m {
      ScanSame(x, i + 1, m);
    }
  }

  /** The scan and the tail are both empty exactly when the buffers are
      equal: every differing byte of the shared prefix is covered by a
      region, and a length difference always adds one. */
  lemma NoChangesIffEqual(before: seq<Byte>, after: seq<Byte>)
    ensures var m := Min(|before|, |after|);
            Scan(before, after, 0, m) + TailChange(before, after) == [] <==> before == after
  {
    var m := Min(|before|, |after|);
    if before == after {
      ScanSame(before, 0, m);
    }
    if Scan(before, after, 0, m) + TailChange(before, after) == [] {
      assert TailChange(before, after) == [];
      ScanCovers(before, after, 0, m);
      assert forall x :: 0 <= x < m ==> before[x] == after[x];
    }
  }

  /** The structure of the result: prefix regions first, each well formed,
      ordered and separated, covering every differing index of the shared
      prefix, then exactly one tail region when the lengths differ. */
  lemma FindChangesStructure(before: seq<Byte>, after: seq<Byte>)
    ensures var m := Min(|before|, |after|);
            var rs := FindChanges(before, after);
            var p := |Scan(before, after, 0, m)|;
            && (|before| == |after| ==> |rs| == p)
            && (|before| != |after| ==> |rs| == p + 1 && rs[p] == TailChange(before, after)[0])
            && (forall j :: 0 <= j < p ==> PrefixRegion(before, after, m, rs[j]))
            && (forall j, k :: 0 <= j < k < p ==> End(rs[j]) + 2 <= rs[k].offset)
            && (forall x :: 0 <= x < m && before[x] != after[x] ==> Covered(rs[..p], x))
  {
    var m := Min(|before|, |after|);
    var s := Scan(before, after, 0, m);
    var rs := FindChanges(before, after);
    ScanRegions(before, after, 0, m);
    ScanSeparated(before, after, 0, m);
    ScanCovers(before, after, 0, m);
    assert rs[..|s|] == s;
  }

  /** A differing index of the shared prefix is in exactly one region. */
  lemma CoveredOnce(before: seq<Byte>, after: seq<Byte>, x: nat, j: nat, k: nat)
    requires var m := Min(|before|, |after|);
             x < m && before[x] != after[x]
    requires j < |Scan(before, after, 0, Min(|before|, |after|))| && k < |Scan(before, after, 0, Min(|before|, |after|))|
    requires var s := Scan(before, after, 0, Min(|before|, |after|));
             s[j].offset <= x < End(s[j]) && s[k].offset <= x < End(s[k])
    ensures j == k
  {
    var m := Min(|before|, |after|);
    ScanSeparated(before, after, 0, m);
  }

  /** Bytes of the shared prefix outside every region are equal. */
  lemma OutsideRegionsEqual(before: seq<Byte>, after: seq<Byte>, x: nat)
    requires x < Min(|before|, |after|)
    requires !Covered(Scan(before, after, 0, Min(|before|, |after|)), x)
    ensures before[x] == after[x]
  {
    ScanCovers(before, after, 0, Min(|before|, |after|));
  }

  function TotalOld(rs: seq<ByteChange>): nat
  {
    if |rs| == 0 then 0 else |rs[0].oldBytes| + TotalOld(rs[1..])
  }

  function TotalNew(rs: seq<ByteChange>): nat
  {
    if |rs| == 0 then 0 else |rs[0].newBytes| + TotalNew(rs[1..])
  }

  lemma {:induction false} TotalsAppend(a: seq<ByteChange>, b: seq<ByteChange>)
    ensures TotalOld(a + b) == TotalOld(a) + TotalOld(b)
    ensures TotalNew(a + b) == TotalNew(a) + TotalNew(b)
  {
    if |a| > 0 {
      TotalsAppend(a[1..], b);
      assert (a + b)[1..] == a[1..] + b;
    } else {
      assert a + b == b;
    }
  }

  lemma {:induction false} ScanTotalsBalance(before: seq<Byte>, after: seq<Byte>, i: nat, m: nat)
    requires i <= m <= |before| && m <= |after|
    ensures TotalOld(Scan(before, after, i, m)) == TotalNew(Scan(before, after, i, m))
    decreases m - i
  {
    if i < m {
      if before[i] != after[i] {
        var e := RegionEnd(before, after, i, m);
        ScanTotalsBalance(before, after, e, m);
        var c := ByteChange(i, before[i..e], after[i..e]);
        assert Scan(before, after, i, m) == [c] + Scan(before, after, e, m);
        TotalsAppend([c], Scan(before, after, e, m));
      } else {
        ScanTotalsBalance(before, after, i + 1, m);
      }
    }
  }

  /** The byte totals of a preview differ exactly by the size difference. */
  lemma TotalsDifference(before: seq<Byte>, after: seq<Byte>)
    ensures TotalOld(FindChanges(before, after)) - TotalNew(FindChanges(before, after)) == |before| - |after|
  {
    var m := Min(|before|, |after|);
    ScanTotalsBalance(before, after, 0, m);
    TotalsAppend(Scan(before, after, 0, m), TailChange(before, after));
  }

  function Plural(n: nat): string
  {
    if n == 1 then "" else "s"
  }

  /** The one-line summary: region count and the before and after byte totals. */
  method PreviewSummary(changes: seq<ByteChange>) returns (r: string)
    ensures changes == [] ==> r == "No changes detected"
    ensures changes != [] ==>
              r == Decimal(|changes|) + " change region" + Plural(|changes|) + ", "
                   + Decimal(TotalOld(changes)) + " bytes → " + Decimal(TotalNew(changes)) + " bytes"
  {
    if |changes| == 0 {
      return "No changes detected";
    }
    var totalOld := 0;
    var totalNew := 0;
    var i := |changes|;
    while i > 0
      invariant 0 <= i <= |changes|
      invariant totalOld == TotalOld(changes[i..])
      invariant totalNew == TotalNew(changes[i..])
    {
      i := i - 1;
      assert changes[i..][1..] == changes[i + 1..];
      totalOld := totalOld + |changes[i].oldBytes|;
      totalNew := totalNew + |changes[i].newBytes|;
    }
    assert changes[0..] == changes;
    r := Decimal(|changes|) + " change region" + Plural(|changes|) + ", "
         + Decimal(totalOld) + " bytes → " + Decimal(totalNew) + " bytes";
  }
}
