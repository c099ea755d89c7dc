# OMPS limb-profiler quality masking, in Dafny

`read_omps_limb` in monetio reads a NASA OMPS limb-profiler level-2 ozone file,
converts the visible- and UV-channel ozone retrievals to number density, and
then rejects unreliable retrievals by overwriting them, in place, with the
sentinel -999. This project models that masking pass and proves what it does.

The two profiles `o3_vis` and `o3_uv` are scans-by-levels buffers
(`array2<real>`). The pass runs in the source's order:

1. `np.where` on the PMC flag and on the two per-channel quality codes, then
   fancy-index assignment of whole scans: both channels where the PMC flag is
   1, the visible channel where its quality is not 1, the UV channel where its
   quality is not 1 (`OmpsLimb.MaskRows`).
2. A loop over the `len(lat)` scans (`OmpsLimb.MaskScan` is its body). It
   masks the whole scan in both channels when character 2 of the decimal text
   of the swath-level flag is not `'0'`. It then looks up the scan's cloud
   height in the altitude grid with `np.where`. If some level matches and the
   cloud height is not 1, it masks levels `0 .. a[0]` of both channels. The
   slice is clamped to the row length, as numpy does (`OmpsLimb.MaskPrefix`).

The specification of the result is `OmpsLimb.MaskedEntry`. It gives the final
value of one entry from its original value and the scan's flags. The in-place
method `OmpsLimb.MaskRetrievals` is proved to leave every entry of both
profiles equal to `MaskedEntry` of its original value. It is also proved to
leave the precision arrays untouched. Its own contract and the lemmas characterise
`MaskedEntry` independently of how it is written:

- every entry ends as its original value or as -999;
- it ends as -999 exactly when it already was -999, or the PMC flag is 1, or
  its own channel's quality is not 1, or the swath flag fails, or the cloud
  rule cuts it;
- the cloud rule cuts level `k` exactly when the cloud height is not 1, occurs
  in the grid, and occurs at no level below `k`.

Python's `str` of a non-negative integer is modelled as `Decimal.Show`. It is
proved inverse to digit parsing in both directions. Its third character is
proved to be the last of the three leading digits.

Measured values are exact reals, compared only for equality with -999. The
cloud height and the altitude grid are reals compared with exact equality, as
the source compares floats.

## Model

| member | source | states |
|---|---|---|
| `OmpsLimb.MaskRetrievals` | monetio/sat/omps_limb.py:41-59 | after the pass, every entry of `o3_vis` and `o3_uv` equals `MaskedEntry` of its original value, with that channel's own quality code; the precision arrays keep every entry |
| `OmpsLimb.MaskScan` | monetio/sat/omps_limb.py:51-59 | one loop iteration masks, in scan `i` only, every level of both channels when the swath flag fails and the levels at or below the cloud cutoff; every other entry is unchanged |
| `OmpsLimb.MaskRows` | monetio/sat/omps_limb.py:45-48 | fancy-index assignment: an entry becomes -999 exactly when its scan is in the index list; all others keep their value |
| `OmpsLimb.MaskPrefix` | monetio/sat/omps_limb.py:58-59 | row-slice assignment `a[i][:end]`: levels below `end` (clamped to the row length) of scan `i` become -999; nothing else changes (with `end` the row length it is also the whole-row write of lines 52-53) |
| `OmpsLimb.MaskedEntry` | monetio/sat/omps_limb.py:42-59 | the final value of one entry of one channel: -999 when the PMC flag is 1, that channel's quality is not 1, the swath flag fails or the cloud rule reaches the level, otherwise the original value; it is only ever the original value or -999, and an entry already -999 stays -999 |
| `OmpsLimb.SwathFlagged` | monetio/sat/omps_limb.py:51 | the test `str(qfg[i])[2] != '0'`; it is defined only for flags of at least 100, and holds exactly when the last of the flag's three leading digits is not 0 |
| `OmpsLimb.AltMatches` | monetio/sat/omps_limb.py:54 | `alt == cloud_height[i]`: one flag per level, set exactly where the level equals the cloud height, and some flag is set exactly when the cloud height occurs in the grid |
| `OmpsLimb.BelowCloud` | monetio/sat/omps_limb.py:54-59 | level `k` is cut by the cloud rule; a cut level lies inside the grid, the cloud height is then not 1 and occurs in the grid, and no level below `k` equals it |
| `OmpsLimb.Where` | monetio/sat/omps_limb.py:42-44 | `np.where` returns exactly the positions that hold, each in range, strictly increasing |
| `OmpsLimb.WhereFirst` | monetio/sat/omps_limb.py:54-57 | `np.where` finds something exactly when some position holds, and its first result is the least position that holds |
| `OmpsLimb.CloudCutoff` | monetio/sat/omps_limb.py:54-58 | the cloud rule fires exactly when the cloud height is not 1 and occurs in the altitude grid; its cutoff level is the first grid level equal to the cloud height |
| `OmpsLimb.BelowCloudIff` | monetio/sat/omps_limb.py:54-59 | level `k` is cut by the cloud rule exactly when the cloud height is not 1, occurs in the grid, and occurs at no level below `k`; levels above the first match are not cut |
| `OmpsLimb.SwathFlaggedThreeDigits` | monetio/sat/omps_limb.py:51 | for a three-digit flag the swath rule rejects the scan exactly when its units digit is not 0 |
| `OmpsLimb.MaskedEntryCharacterised` | monetio/sat/omps_limb.py:42-59 | a final entry is -999 exactly when it already was, or PMC is 1, or its own channel's quality is not 1, or the swath flag fails, or the cloud rule reaches its level |
| `OmpsLimb.CloudTruncationExample` | monetio/sat/omps_limb.py:54-59 | on the grid 0, 1, 2, 3, 4 with cloud height 2 the cutoff is level 2: levels 0 to 2 are cut and levels 3 and 4 are not |
| `OmpsLimb.NoCloudHeightNeverTruncates` | monetio/sat/omps_limb.py:57 | a cloud height of 1 cuts no level, whatever the grid holds |
| `Decimal.Show` | monetio/sat/omps_limb.py:51 | `str(n)` is a non-empty digit string with no leading zero unless `n` is 0 |
| `Decimal.ParseShow` | monetio/sat/omps_limb.py:51 | reading `str(n)` back as digits gives `n` |
| `Decimal.ShowParse` | monetio/sat/omps_limb.py:51 | every digit string without a leading zero is `str` of the number it stands for |
| `Decimal.ShowLength` | monetio/sat/omps_limb.py:51 | `str(n)` has a character at index 2 exactly when `n >= 100` |
| `Decimal.ThirdChar` | monetio/sat/omps_limb.py:51 | the character at index 2 of `str(n)` is the last digit of the number formed by the three leading digits of `n` |

## Left out

- Reading the HDF5 file and closing its handle (monetio/sat/omps_limb.py:20-39): external I/O. The model takes the field arrays as inputs.
- Unit conversion `* 1.38e-19 * temperature / pressure / 1e-6` (monetio/sat/omps_limb.py:27-32): floating-point arithmetic. The converted profiles are opaque inputs.
- Timestamps from `Date` and `Time` via pandas (monetio/sat/omps_limb.py:30, 41): calendar logic inside pandas, which is not part of this model.
- Building the xarray Dataset and its `missing_value` attribute (monetio/sat/omps_limb.py:60-74): container construction with no logic of its own.
- setup.py: packaging metadata, no behaviour.
- OmpsLimb.MaskRetrievals: a swath flag with fewer than three decimal digits makes `str(qfg[i])[2]` raise `IndexError`, which propagates to the caller of `read_omps_limb` so that no dataset is returned. The model makes at least three digits a precondition and does not model that error path.
- OmpsLimb.MaskRetrievals: all per-scan inputs and both profiles must have `len(lat)` scans. The source does not check this. A mismatch makes numpy raise `IndexError`, or makes the loop skip the trailing profile rows, or, when a flag vector is shorter than the profiles, leaves the trailing rows unchecked by that flag's mask without any error. None of these cases is modelled.
- OmpsLimb.MaskRetrievals: the profiles and the precision arrays are distinct buffers, as they are in the source. Aliasing between them is not modelled.
- Negative or non-integer swath flags, whose text would start with `-` or contain `.`, are not modelled: the flag is a natural number.
- Floating-point NaN in cloud heights or altitudes is not modelled: reals have exact equality and no NaN.
- Measured values are not changed by anything except writes of -999. The model therefore treats them as exact reals and makes no claim about float rounding.
