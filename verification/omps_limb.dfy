/** The quality-masking pass of the OMPS limb-profiler ozone reader.

    After unit conversion, the visible- and UV-channel ozone profiles are two
    scans-by-levels buffers. The pass overwrites, in place, every retrieval the
    per-scan flags reject with the sentinel -999:
      - the whole scan, in both channels, when the PMC flag is 1;
      - the whole scan, in one channel, when that channel's quality code is not 1;
      - the whole scan, in both channels, when the third character of the decimal
        text of the swath-level quality flag is not '0';
      - the levels from 0 up to and including the first altitude level equal to the
        scan's cloud height, in both channels, unless that cloud height is 1. */
module OmpsLimb {
  import Decimal

  datatype Option<T> = None | Some(value: T)

  /** The sentinel for "no valid retrieval" (the dataset's `missing_value`). */
  const Missing: real := -999.0

  /** The cloud height that means "no cloud height reported". */
  const NoCloudHeight: real := 1.0

  // ---------------------------------------------------------------------------
  // Specification: which entries end as the sentinel
  // ---------------------------------------------------------------------------

  /** `np.where(sel)[0]`: the positions of `sel` that hold, in increasing order. */
  function Where(sel: seq<bool>): (r: seq<nat>)
    ensures forall j :: 0 <= j < |r| ==> r[j] < |sel| && sel[r[j]]
    ensures forall i :: 0 <= i < |sel| && sel[i] ==> i in r
    ensures forall j, l :: 0 <= j < l < |r| ==> r[j] < r[l]
  {
    if sel == [] then []
    else Where(sel[..|sel| - 1]) + if sel[|sel| - 1] then [|sel| - 1] else []
  }

  /** Something holds somewhere in `sel` exactly when `np.where` finds a position,
      and the first position it reports is the least one that holds. */
  lemma WhereFirst(sel: seq<bool>)
    ensures |Where(sel)| != 0 <==> exists i :: 0 <= i < |sel| && sel[i]
    ensures |Where(sel)| != 0 ==> forall i :: 0 <= i < Where(sel)[0] ==> !sel[i]
  {
  }

  /** `alt == h`, elementwise: one flag per level, and some flag holds exactly
      when `h` occurs in the grid. */
  function AltMatches(alt: seq<real>, h: real): (m: seq<bool>)
    ensures |m| == |alt| && forall j :: 0 <= j < |alt| ==> (m[j] <==> alt[j] == h)
    ensures (exists j :: 0 <= j < |m| && m[j]) <==> h in alt
  {
    seq(|alt|, j requires 0 <= j < |alt| => alt[j] == h)
  }

  /** The last level masked by the cloud rule for a scan whose cloud height is `h`:
      the first altitude level equal to `h`, or None when `h` is the no-cloud value
      or matches no level. */
  function CloudCutoff(alt: seq<real>, h: real): (c: Option<nat>)
    ensures c.Some? <==> h != NoCloudHeight && h in alt
    ensures c.Some? ==> c.value < |alt| && alt[c.value] == h
    ensures c.Some? ==> forall j :: 0 <= j < c.value ==> alt[j] != h
  {
    var m := AltMatches(alt, h);
    var a := Where(m);
    WhereFirst(m);
    if |a| != 0 && h != NoCloudHeight then Some(a[0]) else None
  }

  /** Level `k` lies at or below the cloud cutoff of a scan with cloud height `h`. */
  predicate BelowCloud(alt: seq<real>, h: real, k: nat)
    ensures BelowCloud(alt, h, k) ==> h != NoCloudHeight && h in alt && k < |alt|
    ensures BelowCloud(alt, h, k) ==> forall j :: 0 <= j < k ==> alt[j] != h
  {
    match CloudCutoff(alt, h)
    case Some(a0) => k <= a0
    case None => false
  }

  /** The swath-level quality flag `q` rejects its scan: the character at index 2
      of its decimal text is not '0'. */
  predicate SwathFlagged(q: nat)
    requires 3 <= |Decimal.Show(q)|
    ensures 100 <= q
    ensures SwathFlagged(q) <==> Decimal.Leading3(q) % 10 != 0
  {
    Decimal.ShowLength(q);
    Decimal.ThirdChar(q);
    Decimal.Show(q)[2] != '0'
  }

  /** The final value of level `k` of one channel of a scan whose value was `v`,
      given the scan's PMC flag, that channel's quality code, the swath flag `q`,
      the altitude grid and the scan's cloud height `h`. It is only ever the
      original value or the sentinel, and an entry that was already the
      sentinel stays so. */
  function MaskedEntry(v: real, pmc: int, qual: int, q: nat, alt: seq<real>, h: real, k: nat): (r: real)
    requires 3 <= |Decimal.Show(q)|
    ensures r == v || r == Missing
    ensures v == Missing ==> r == Missing
  {
    if pmc == 1 || qual != 1 || SwathFlagged(q) || BelowCloud(alt, h, k) then Missing else v
  }

  // ---------------------------------------------------------------------------
  // Properties of the specification
  // ---------------------------------------------------------------------------

  /** Level `k` is cut by the cloud rule exactly when the cloud height is not the
      no-cloud value, occurs in the grid, and occurs at no level below `k`. */
  lemma BelowCloudIff(alt: seq<real>, h: real, k: nat)
    ensures BelowCloud(alt, h, k) <==>
              h != NoCloudHeight && h in alt && forall j :: 0 <= j < k && j < |alt| ==> alt[j] != h
  {
  }

  /** For a three-digit flag the swath rule reads its units digit. */
  lemma SwathFlaggedThreeDigits(q: nat)
    requires 100 <= q < 1000
    ensures 3 <= |Decimal.Show(q)|
    ensures SwathFlagged(q) <==> q % 10 != 0
  {
    Decimal.ShowLength(q);
  }

  /** A final entry is the sentinel exactly when it already was, or one of the
      four rules rejects it. */
  lemma MaskedEntryCharacterised(v: real, pmc: int, qual: int, q: nat, alt: seq<real>, h: real, k: nat)
    requires 3 <= |Decimal.Show(q)|
    ensures MaskedEntry(v, pmc, qual, q, alt, h, k) == Missing <==>
              v == Missing || pmc == 1 || qual != 1 || SwathFlagged(q) ||
              (h != NoCloudHeight && h in alt && forall j :: 0 <= j < k && j < |alt| ==> alt[j] != h)
  {
  }

  /** The cloud rule on the grid 0, 1, 2, 3, 4 with cloud height 2 cuts levels 0 to 2
      and leaves levels 3 and 4. */
  lemma CloudTruncationExample()
    ensures CloudCutoff([0.0, 1.0, 2.0, 3.0, 4.0], 2.0) == Some(2)
    ensures forall k: nat :: BelowCloud([0.0, 1.0, 2.0, 3.0, 4.0], 2.0, k) <==> k <= 2
  {
  }

  /** A cloud height of 1 never cuts a level, even where 1 is on the grid. */
  lemma NoCloudHeightNeverTruncates(alt: seq<real>, k: nat)
    ensures !BelowCloud(alt, NoCloudHeight, k)
  {
  }

  // ---------------------------------------------------------------------------
  // The in-place pass
  // ---------------------------------------------------------------------------

  /** `a[i][:end] = -999.`: the first `end` levels of scan `i`, clamped to the
      row length as a slice is; `end == a.Length1` masks the whole scan. */
  method MaskPrefix(a: array2<real>, i: nat, end: nat)
    requires i < a.Length0
    modifies a
    ensures forall r, k :: 0 <= r < a.Length0 && 0 <= k < a.Length1 ==>
              a[r, k] == if r == i && k < end then Missing else old(a[r, k])
  {
    var stop := if end < a.Length1 then end else a.Length1;
    var k := 0;
    while k < stop
      invariant 0 <= k <= stop
      invariant forall r, l :: 0 <= r < a.Length0 && 0 <= l < a.Length1 ==>
                  a[r, l] == if r == i && l < k then Missing else old(a[r, l])
    {
      a[i, k] := Missing;
      k := k + 1;
    }
  }

  /** `a[rows] = -999.`: every level of every scan listed in `rows`. */
  method MaskRows(a: array2<real>, rows: seq<nat>)
    requires forall j :: 0 <= j < |rows| ==> rows[j] < a.Length0
    modifies a
    ensures forall r, k :: 0 <= r < a.Length0 && 0 <= k < a.Length1 ==>
              a[r, k] == if r in rows then Missing else old(a[r, k])
  {
    var j := 0;
    while j < |rows|
      invariant 0 <= j <= |rows|
      invariant forall r, k :: 0 <= r < a.Length0 && 0 <= k < a.Length1 ==>
                  a[r, k] == if r in rows[..j] then Missing else old(a[r, k])
    {
      MaskPrefix(a, rows[j], a.Length1);
      assert rows[..j + 1] == rows[..j] + [rows[j]];
      j := j + 1;
    }
    assert rows[..j] == rows;
  }

  /** One pass of the per-scan loop: the swath rule, then the cloud rule, on scan `i`
      of both channels. */
  method MaskScan(o3Vis: array2<real>, o3Uv: array2<real>, i: nat, q: nat, alt: seq<real>, h: real)
    requires o3Vis != o3Uv
    requires i < o3Vis.Length0 && i < o3Uv.Length0
    requires 3 <= |Decimal.Show(q)|
    modifies o3Vis, o3Uv
    ensures forall r, k :: 0 <= r < o3Vis.Length0 && 0 <= k < o3Vis.Length1 ==>
              o3Vis[r, k] == if r == i && (SwathFlagged(q) || BelowCloud(alt, h, k)) then Missing else old(o3Vis[r, k])
    ensures forall r, k :: 0 <= r < o3Uv.Length0 && 0 <= k < o3Uv.Length1 ==>
              o3Uv[r, k] == if r == i && (SwathFlagged(q) || BelowCloud(alt, h, k)) then Missing else old(o3Uv[r, k])
  {
    if Decimal.Show(q)[2] != '0' {
      MaskPrefix(o3Uv, i, o3Uv.Length1);
      MaskPrefix(o3Vis, i, o3Vis.Length1);
    }
    var a := Where(AltMatches(alt, h));
    if |a| != 0 && h != NoCloudHeight {
      MaskPrefix(o3Vis, i, a[0] + 1);
      MaskPrefix(o3Uv, i, a[0] + 1);
    }
    assert CloudCutoff(alt, h) == if |a| != 0 && h != NoCloudHeight then Some(a[0]) else None;
  }

  /** The masking pass of `read_omps_limb`: the vectorised PMC and quality masks,
      then one sweep over the `|lat|` scans applying the swath and cloud rules.
      Every entry of both profiles ends as MaskedEntry of its original value; the
      precision arrays are never touched. */
  method MaskRetrievals(o3Vis: array2<real>, o3Uv: array2<real>,
                        o3VisPrecision: array2<real>, o3UvPrecision: array2<real>,
                        lat: seq<real>, alt: seq<real>, pmcFlag: seq<int>, cloudHeight: seq<real>,
                        visQual: seq<int>, uvQual: seq<int>, qfg: seq<nat>)
    requires o3Vis != o3Uv
    requires o3VisPrecision != o3Vis && o3VisPrecision != o3Uv
    requires o3UvPrecision != o3Vis && o3UvPrecision != o3Uv
    requires o3Vis.Length0 == o3Uv.Length0 == |lat|
    requires |pmcFlag| == |cloudHeight| == |visQual| == |uvQual| == |qfg| == |lat|
    requires forall i :: 0 <= i < |qfg| ==> 3 <= |Decimal.Show(qfg[i])|
    modifies o3Vis, o3Uv
    ensures forall i, k :: 0 <= i < o3Vis.Length0 && 0 <= k < o3Vis.Length1 ==>
              o3Vis[i, k] == MaskedEntry(old(o3Vis[i, k]), pmcFlag[i], visQual[i], qfg[i], alt, cloudHeight[i], k)
    ensures forall i, k :: 0 <= i < o3Uv.Length0 && 0 <= k < o3Uv.Length1 ==>
              o3Uv[i, k] == MaskedEntry(old(o3Uv[i, k]), pmcFlag[i], uvQual[i], qfg[i], alt, cloudHeight[i], k)
    ensures forall i, k :: 0 <= i < o3VisPrecision.Length0 && 0 <= k < o3VisPrecision.Length1 ==>
              o3VisPrecision[i, k] == old(o3VisPrecision[i, k])
    ensures forall i, k :: 0 <= i < o3UvPrecision.Length0 && 0 <= k < o3UvPrecision.Length1 ==>
              o3UvPrecision[i, k] == old(o3UvPrecision[i, k])
  {
    var n := |lat|;
    var pInd := Where(seq(n, j requires 0 <= j < n => pmcFlag[j] == 1));
    var visqInd := Where(seq(n, j requires 0 <= j < n => visQual[j] != 1));
    var uvqInd := Where(seq(n, j requires 0 <= j < n => uvQual[j] != 1));
    MaskRows(o3Vis, pInd);
    MaskRows(o3Uv, pInd);
    MaskRows(o3Vis, visqInd);
    MaskRows(o3Uv, uvqInd);
    assert forall r :: 0 <= r < n ==> (r in pInd <==> pmcFlag[r] == 1);
    assert forall r :: 0 <= r < n ==> (r in visqInd <==> visQual[r] != 1);
    assert forall r :: 0 <= r < n ==> (r in uvqInd <==> uvQual[r] != 1);

    var i := 0;
    while i < n
      invariant 0 <= i <= n
      invariant forall r, k :: 0 <= r < i && 0 <= k < o3Vis.Length1 ==>
                  o3Vis[r, k] == MaskedEntry(old(o3Vis[r, k]), pmcFlag[r], visQual[r], qfg[r], alt, cloudHeight[r], k)
      invariant forall r, k :: i <= r < n && 0 <= k < o3Vis.Length1 ==>
                  o3Vis[r, k] == if pmcFlag[r] == 1 || visQual[r] != 1 then Missing else old(o3Vis[r, k])
      invariant forall r, k :: 0 <= r < i && 0 <= k < o3Uv.Length1 ==>
                  o3Uv[r, k] == MaskedEntry(old(o3Uv[r, k]), pmcFlag[r], uvQual[r], qfg[r], alt, cloudHeight[r], k)
      invariant forall r, k :: i <= r < n && 0 <= k < o3Uv.Length1 ==>
                  o3Uv[r, k] == if pmcFlag[r] == 1 || uvQual[r] != 1 then Missing else old(o3Uv[r, k])
    {
      MaskScan(o3Vis, o3Uv, i, qfg[i], alt, cloudHeight[i]);
      i := i + 1;
    }
  }
}
