# fetch-mon, modelled in Dafny

fetch-mon is a full-screen terminal dashboard. Once a second it samples the
host (per-core CPU load, memory and disk totals, temperature, uptime, user,
host name and OS) and draws a logo beside an information column. This project
models the deterministic core of `fetch-mon.py` and proves what it promises:

- **Gauge** — the ten-segment usage bar `"█" * int(pct/10) + "░" * (10 - int(pct/10))`
  followed by the percentage to one decimal and `%` (`gauge.dfy`).
- **CpuGrid** — the per-core CPU block: cores four to a data row, blank cells
  after the last core, an empty spacer row after every data row
  (`cpu_grid.dfy`). The nested loops are a method proved equal to a
  functional specification.
- **Distro** — the distribution name chosen from the platform name, the
  os-release file's first `ID=` line, and three marker files, and the logo it
  selects with "linuxgen" as the default (`distro.dfy`). The loop with early
  returns is a method proved equal to a functional specification.
- **Temperature** — the first sensor reading labelled "Package id 0" or with
  an empty label, in sensor order then reading order, or the sentinel "N/A"
  (`temperature.dfy`). The nested loops are a method proved equal to a
  functional specification.
- **Uptime** — whole seconds since boot, written as Python writes a
  `timedelta` (`uptime.dfy`).
- **Dashboard** — the layout width `min(columns - 4, 120)`, the totals in whole
  binary gigabytes, the information text, and the frame one tick produces
  (`dashboard.dfy`).
- **Text** and **Wrappers** — the Python string and number operations used above
  (`str(n)`, `%02d`, `:.1f`, repetition, `split`, `strip`, `replace`,
  `lower`), each with its inverse or characterisation.

Percentages are held exactly in tenths of a percent (55.0 % is 550) and
temperatures in tenths of a degree. The per-core CPU readings are reported
rounded to one decimal, so for them `int(pct / 10)` is `tenths / 100` and
`:.1f` prints the value exactly.

Where the code does something a reader might not expect, the code is modelled:

- The bar is not clamped. Python repeats a string a negative number of times
  as `""`, so a reading of 110 % or more gives more than ten full glyphs and
  no empty ones. `Gauge.Bar` states this.
- The memory and disk gauges are drawn by the rendering library's default
  progress bar, not by the ten-segment bar. Only their totals line is modelled.
- From one day on, the uptime text gains a `D day(s), ` prefix
  (`Uptime.DaysShown`).

## Model

| member | source | states |
|---|---|---|
| `Text.NatToString` | fetch-mon.py:183 | `str(k)` of a natural number is non-empty, all decimal digits, has no leading zero, and is one digit long exactly when k < 10 |
| `Text.DecimalRoundTrip` | fetch-mon.py:183 | reading the digits of `str(n)` back as a decimal number gives n |
| `Text.CanonicalDigits` | fetch-mon.py:183 | a run of digits without a leading zero is exactly `str` of its value, so `str(n)` is the only such text that reads back as n |
| `Text.TwoDigits` | fetch-mon.py:162 | `%02d` of a value below 100 is exactly two digits that read back as the value |
| `Text.OneDecimal` | fetch-mon.py:158 | `:.1f` of a tenths value is an integer part, a point and one digit, which together read back as the value; the integer part has no leading zero |
| `Text.OneDecimalRoundTrip` | fetch-mon.py:158 | parsing `<digits>.<digit>` inverts the one-decimal text |
| `Text.IntToString` | fetch-mon.py:162 | `str(i)` / `%d` of any integer is non-empty and starts with `-` exactly when i < 0, and its digits have no leading zero; with IntToStringRoundTrip and CanonicalDigits this pins the text |
| `Text.IntToStringRoundTrip` | fetch-mon.py:162 | `str(i)` reads back as i for every integer, negative ones included |
| `Text.SignedOneDecimal` | fetch-mon.py:171 | the one-decimal text of a signed value starts with `-` exactly when the value is negative, and its integer part has no leading zero; its value is pinned by SignedOneDecimalRoundTrip |
| `Text.SignedOneDecimalRoundTrip` | fetch-mon.py:171 | the signed one-decimal text reads back as the signed tenths it was written for |
| `Text.Repeat` | fetch-mon.py:157 | `c * n` has n copies of c when n > 0 and is empty when n <= 0 |
| `Text.TakeUntil` | fetch-mon.py:32 | the first `split` field is the longest prefix without the separator, followed by the separator when it is shorter than the text |
| `Text.TakeUntilField` | fetch-mon.py:32 | a field followed by the separator splits back off as that field |
| `Text.SplitAt` | fetch-mon.py:162 | splitting at the first separator gives a separator-free head and the rest, which rejoin to the text; nothing is split exactly when there is no separator |
| `Text.SplitAtField` | fetch-mon.py:162 | a field followed by the separator splits back off with the rest intact |
| `Text.Strip` | fetch-mon.py:32 | `strip()` leaves no whitespace at either end |
| `Text.StripPadded` | fetch-mon.py:32 | `strip()` removes exactly the whitespace around a word that has none at its ends |
| `Text.RemoveAll` | fetch-mon.py:32 | `replace('"', '')` leaves no quote and changes nothing when there is none |
| `Text.LowerChar` | fetch-mon.py:22 | an ASCII capital becomes its small letter (code point + 32), every other character is unchanged, and the result is never an ASCII capital |
| `Text.Lower` | fetch-mon.py:35 | `lower()` keeps the length and lowers each character in place |
| `Gauge.Filled` | fetch-mon.py:157 | `int(pct / 10)` is the number of whole tens in the percentage: n·10 % ≤ pct < (n+1)·10 % |
| `Gauge.Render` | fetch-mon.py:158 | the gauge text `f"{bar} {pct:.1f}%"`; characterised by RenderRoundTrip and RenderShowsFilled |
| `Gauge.Bar` | fetch-mon.py:157 | the first int(pct/10) glyphs are full and the rest empty; ten glyphs long for 0–100 %; for 110 % or more, int(pct/10) > 10 glyphs with no empty ones |
| `Gauge.BarMonotone` | fetch-mon.py:182 | a higher reading never fills fewer segments, and every full glyph stays full |
| `Gauge.RenderShowsFilled` | fetch-mon.py:157-158 | the full glyphs at the start of a gauge text number exactly int(pct/10), in and out of range |
| `Gauge.RenderRoundTrip` | fetch-mon.py:157-158 | the gauge text is the bar, a space and the label, and its label reads back as the reading |
| `Gauge.RenderInjective` | fetch-mon.py:182-183 | distinct readings give distinct gauge texts |
| `Gauge.GaugeExamples` | fetch-mon.py:182 | 0 % is ten empty segments, 100 % ten full ones, 55.0 % five full ones labelled `55.0%`, 123.4 % twelve full ones |
| `CpuGrid.CoreCell` | fetch-mon.py:183 | the text `Core {k}: {gauge}  ` of one core's cell; characterised by CellCoreOfCoreCell and CellGaugeOfCoreCell |
| `CpuGrid.DataRow` | fetch-mon.py:179-185 | the four cells of the group starting at i, blank past the last core; characterised by DataRowAt |
| `CpuGrid.GridFrom` | fetch-mon.py:177-187 | the rows from group i on, each data row followed by a spacer; characterised by GridFromLength and GridFromGroup |
| `CpuGrid.Grid` | fetch-mon.py:174-188 | the whole CPU block; characterised by GridShape, CorePlacement and EachCoreOnce |
| `CpuGrid.BuildCpuTable` | fetch-mon.py:174-188 | the nested loops build exactly the grid the functional specification describes |
| `CpuGrid.BuildRow` | fetch-mon.py:178-184 | the inner loop builds the four cells of a group: core i+j's cell while that core exists, blank after the last |
| `CpuGrid.DataRowAt` | fetch-mon.py:179-184 | cell j of the data row for group i is core i+j's cell when i+j is a core, and blank otherwise |
| `CpuGrid.GridFromLength` | fetch-mon.py:177-187 | from group i on there are two rows per remaining group of four |
| `CpuGrid.GridFromGroup` | fetch-mon.py:177-187 | from group i on, rows 2g and 2g+1 are the data row of group i+4g and an empty spacer |
| `CpuGrid.GridRows` | fetch-mon.py:177-187 | N cells give 2·⌈N/4⌉ rows, alternating the data row of each group of four with an empty spacer |
| `CpuGrid.OneFullRow` | fetch-mon.py:177-187 | exactly four cores give one data row holding their four cells, then its spacer |
| `CpuGrid.GridShape` | fetch-mon.py:177-187 | N cores give 2·⌈N/4⌉ rows; even rows have four cells, odd rows are empty; cell c of data row r is core 4r+c if it exists and blank otherwise |
| `CpuGrid.CorePlacement` | fetch-mon.py:177-183 | core k is in grid row 2·(k div 4), column k mod 4 |
| `CpuGrid.CellCoreOfCoreCell` | fetch-mon.py:183 | the index written in a core's cell reads back as that core's index |
| `CpuGrid.CellGaugeOfCoreCell` | fetch-mon.py:183 | the text between `: ` and the two trailing spaces of a core's cell is exactly the gauge of that core's reading |
| `CpuGrid.CellShowsReading` | fetch-mon.py:180-183 | the gauge in a core's cell reads back as the core's reading and has int(pct/10) leading full segments |
| `CpuGrid.OneFullRowShows` | fetch-mon.py:177-187 | for four cores, every cell of the data row shows the gauge of its own core's reading |
| `CpuGrid.EachCoreOnce` | fetch-mon.py:177-185 | every non-blank cell is in a data row and names the core of its position and shows the gauge of that core's reading; a cell is blank exactly past the last core |
| `Distro.IsIdLine` | fetch-mon.py:31 | a line counts when it starts with `ID=` |
| `Distro.IsLinux` | fetch-mon.py:22-23 | the platform is Linux when its lowercased system name is "linux" |
| `Distro.Resolve` | fetch-mon.py:21-46 | the distribution name: "nonlinux" off Linux, else the canonical value of the first `ID=` line, else the marker files; characterised by ResolveNonLinux, ResolveLinux, ResolveWithoutIdLine and Fallback |
| `Distro.IdValue` | fetch-mon.py:32 | the value taken from an `ID=` line contains no double quote |
| `Distro.Canonical` | fetch-mon.py:33-35 | "archarm" becomes "arch"; any other value becomes exactly its lowercased form, of the same length and with no capital |
| `Distro.Fallback` | fetch-mon.py:39-46 | the marker files in order: arch-release gives "arch", else fedora-release "fedora", else debian_version "ubuntu", else "linuxgen" |
| `Distro.FirstIdLine` | fetch-mon.py:30-31 | a line it returns starts with `ID=` |
| `Distro.GetDistro` | fetch-mon.py:21-46 | the loop with early returns computes the specified distribution name |
| `Distro.FirstIdLineIsFirst` | fetch-mon.py:30-35 | no `ID=` line exactly when none is found; otherwise the line found is the earliest one |
| `Distro.ResolveNonLinux` | fetch-mon.py:22-24 | a system other than Linux is named "nonlinux", whatever its files say |
| `Distro.ResolveLinux` | fetch-mon.py:26-35 | on Linux, the earliest `ID=` line of a readable file decides the name |
| `Distro.ResolveWithoutIdLine` | fetch-mon.py:36-46 | on Linux with an unreadable file or no `ID=` line, the marker files decide |
| `Distro.IdLineRoundTrip` | fetch-mon.py:31-32 | `ID=v` and `ID="v"`, with any whitespace around the value, read back as v |
| `Distro.HostWithIdResolves` | fetch-mon.py:30-35 | an `ID=v` line after a non-ID line decides the name even when a marker file exists |
| `Distro.ArchArmRenamed` | fetch-mon.py:33-34 | `ID=archarm` gives "arch" |
| `Distro.ArchArmCapitalised` | fetch-mon.py:33-35 | `ID=ArchARM` gives "archarm" (renaming is checked before lowercasing), which selects the "linuxgen" logo |
| `Distro.OtherValueLowercased` | fetch-mon.py:35 | `ID=Ubuntu` gives "ubuntu" |
| `Distro.LogoFor` | fetch-mon.py:153 | the logo key is always one of the five; a known name selects itself and any other selects "linuxgen" |
| `Distro.FallbackHasOwnLogo` | fetch-mon.py:153 | a name found without an `ID=` line always selects its own logo |
| `Temperature.IsPackage` | fetch-mon.py:170 | a reading is the package reading when its label is "Package id 0" or empty |
| `Temperature.Readings` | fetch-mon.py:168-169 | all readings, sensor group by sensor group in order; characterised by FirstPackageConcat and EarlierGroupWins |
| `Temperature.FirstPackage` | fetch-mon.py:168-171 | a reading it returns has the label "Package id 0" or "" |
| `Temperature.TempText` | fetch-mon.py:166-172 | the text is never empty and is "N/A" exactly when there is no package reading; otherwise it ends in `°C` and the text before that is the signed one-decimal text of the reading, which reads back as its value in tenths |
| `Temperature.GetTemperature` | fetch-mon.py:164-172 | the nested loops with early return show the first package reading in sensor order then reading order, or "N/A" |
| `Temperature.FirstPackageIsFirst` | fetch-mon.py:168-171 | no reading is selected exactly when none has a package label; otherwise the earliest such reading is selected |
| `Temperature.EarlierGroupWins` | fetch-mon.py:168-170 | a package reading in an earlier sensor group wins over any later one |
| `Temperature.FirstPackageConcat` | fetch-mon.py:168-170 | the first package reading of two runs of readings is the first run's if it has one, else the second's |
| `Temperature.NoPackageShowsSentinel` | fetch-mon.py:165-172 | no sensors, or none with a package label, gives "N/A" |
| `Uptime.Clock` | fetch-mon.py:162 | `H:MM:SS` of a time of day with the hours unpadded: 7 characters below ten hours, 8 from then on, starting with `0` exactly below one hour; inverted by ClockRoundTrip |
| `Uptime.Timedelta` | fetch-mon.py:162 | `str(timedelta(seconds=s))`; characterised by UnderADay and DaysShown |
| `Uptime.UptimeText` | fetch-mon.py:160-162 | the timedelta text of the truncated seconds since boot; see ExampleUptime |
| `Uptime.TruncateToInt` | fetch-mon.py:162 | `int()` truncates toward zero: for x ≥ 0 the result is the whole part, for x < 0 the negated whole part of −x |
| `Uptime.ParseSixty` | fetch-mon.py:162 | a minutes or seconds field reads back as a value below 60 |
| `Uptime.ParseClockFields` | fetch-mon.py:162 | hours, two-digit minutes and two-digit seconds joined by `:` read back as hours·3600 + minutes·60 + seconds |
| `Uptime.ClockRoundTrip` | fetch-mon.py:162 | `H:MM:SS` of a time of day reads back as the same number of seconds |
| `Uptime.UnderADay` | fetch-mon.py:161-162 | under a day the text is exactly `H:MM:SS` and reads back as the truncated seconds |
| `Uptime.DaysShown` | fetch-mon.py:162 | from one day on, the text is the day count, ` day, ` for one day and ` days, ` otherwise, then the leftover time of day |
| `Dashboard.LayoutWidth` | fetch-mon.py:205 | the width is at most 120 and at most columns − 4, and equal to one of them |
| `Dashboard.LayoutWidthCases` | fetch-mon.py:205 | the width is columns − 4 up to 124 columns and 120 beyond; 4 columns or fewer give 0 or less; it never shrinks as the terminal widens |
| `Dashboard.WholeGiB` | fetch-mon.py:218 | the gigabytes shown are the g with g·1024³ ≤ bytes < (g+1)·1024³ |
| `Dashboard.InfoText` | fetch-mon.py:209-216 | the information text in its fixed order: user, host, OS and version, uptime, temperature, then the CPU heading; see ExampleTick |
| `Dashboard.MemDiskText` | fetch-mon.py:218 | the totals line with memory and disk in whole binary gigabytes; see ExampleMemDisk |
| `Dashboard.Compose` | fetch-mon.py:200-224 | one tick's frame from the sampled values; RenderDashboard computes it and ExampleTick instantiates it |
| `Dashboard.StartupLogo` | fetch-mon.py:153 | the logo chosen at start-up is always one of the five |
| `Dashboard.RenderDashboard` | fetch-mon.py:200-224 | one tick, calling the temperature search and the CPU block builder, produces the specified frame |
| `Dashboard.ExampleUptime` | fetch-mon.py:161-162 | 3661.5 seconds since boot are shown as `1:01:01` |
| `Dashboard.ExampleCpu` | fetch-mon.py:177-187 | four cores at 10, 50, 90 and 100 % give one data row of their four cells, and its spacer |
| `Dashboard.ExampleCpuGauges` | fetch-mon.py:180-183 | the gauges in that row's cells read back as 10.0, 50.0, 90.0 and 100.0 % and have 1, 5, 9 and 10 full segments |
| `Dashboard.ExampleMemDisk` | fetch-mon.py:218 | 2·1024³ bytes are 2 GB and 1024³ − 1 bytes are 0 GB |
| `Dashboard.ExampleTick` | fetch-mon.py:200-220 | that tick shows uptime `1:01:01`, temperature `N/A`, the CPU block above, the totals above, and width 120 for 200 columns |

## Left out

- The platform queries (CPU percentages, memory, disk, boot time, sensors, system name, host name, OS release, user name, the clock) are inputs of the model, not calls.
- Opening and reading the os-release file and testing for the marker files: the file is given as its lines, or None when it cannot be read (any failure the bare `except` catches), and each marker file as a boolean.
- The rendering library: grid padding, grouping, horizontal and vertical centring, the live full-screen surface, and markup styling. The CPU table object is modelled by the sequence of its rows, and a frame by its parts.
- The memory and disk progress bars: they use the rendering library's default progress columns, which are not visible here. The unused `UsageBar` class is modelled only by its bar expression, which it shares with the CPU cells.
- The terminal-size query and its 100×20 fallback: the column count is an input.
- The refresh loop (`sleep(1)`, `live.update`) and the warm-up CPU sample: timing and I/O with no state of their own.
- The logo art itself: only the key set {arch, ubuntu, fedora, linuxgen, nonlinux} is modelled.
- Layout height: there is no cap on height and the vertical centring lives in the rendering library, so it is not modelled.
- Gauge.Bar: readings are exact tenths of a percent, so a float that is not an exact tenth is not modelled.
- Text.OneDecimal: `:.1f` is modelled for values held exactly in tenths; float rounding is not modelled.
- Temperature.TempText: a temperature is held in tenths of a degree; float rounding of the sensor value is not modelled.
- Uptime.TruncateToInt: the subtraction of the boot time from the clock is exact real arithmetic, not float arithmetic.
- Text.Lower, Text.LowerChar: lower only the ASCII capitals; Python's `str.lower` also maps non-ASCII capitals.
