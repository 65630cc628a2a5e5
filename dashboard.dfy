/**
 * One refresh of the dashboard: the values sampled for this tick are turned
 * into the logo key, the information text, the CPU block, the memory/disk
 * totals line and the width the layout is centred in.
 *
 * The sampled values (user, host, OS, clock, boot time, sensors, per-core
 * readings, memory and disk totals, terminal columns) are inputs; the
 * rendering library's grids, centring and progress bars are not modelled.
 */
module Dashboard {

  import opened Wrappers
  import opened Text
  import Gauge
  import CpuGrid
  import Temperature
  import Uptime
  import Distro

  /** The widest the centred layout gets. */
  const MaxWidth: int := 120

  /** The columns taken off the terminal width before centring. */
  const Margin: int := 4

  /** Bytes in a binary gigabyte, 1024 ** 3. */
  const GiB: nat := 1073741824

  /** `min(columns - 4, 120)`: the width the layout is centred in. */
  function LayoutWidth(columns: nat): (width: int)
    ensures width <= MaxWidth && width <= columns - Margin
    ensures width == MaxWidth || width == columns - Margin
  {
    if columns - Margin < MaxWidth then columns - Margin else MaxWidth
  }

  /**
   * The width follows the terminal up to 124 columns and stays at 120 beyond;
   * there is no lower bound, so a terminal of fewer than 5 columns gives a
   * width of 0 or less. A wider terminal never gives a narrower layout.
   * (120 is MaxWidth, 4 is Margin and 124 their sum, written out.)
   */
  lemma LayoutWidthCases(columns: nat, wider: nat)
    requires columns <= wider
    ensures columns <= 124 ==> LayoutWidth(columns) == columns - 4
    ensures columns >= 124 ==> LayoutWidth(columns) == 120
    ensures columns <= 4 ==> LayoutWidth(columns) <= 0
    ensures LayoutWidth(columns) <= LayoutWidth(wider)
  {
  }

  /** `bytes // 1024 ** 3`: the whole binary gigabytes in `bytes`, truncated, never rounded. */
  function WholeGiB(bytes: nat): (g: nat)
    ensures g * GiB <= bytes < (g + 1) * GiB
  {
    bytes / GiB
  }

  /** The values sampled for one tick. */
  datatype Snapshot = Snapshot(
    username: string,
    hostname: string,
    osName: string,
    osVersion: string,
    now: real,                          // the current time, in seconds
    bootTime: real,                     // the boot time, in seconds
    sensors: seq<Temperature.Sensor>,   // the thermal sensors; [] when there are none
    cpu: seq<Gauge.Tenths>,             // per-core usage, in the order the cores are reported
    memTotal: nat,                      // total memory, in bytes
    diskTotal: nat,                     // size of the root file system, in bytes
    columns: nat                        // the terminal's width
  )

  /** What one tick puts on the screen, before the rendering library lays it out. */
  datatype Frame = Frame(
    logo: string,                 // the key of the logo drawn left of the information
    info: string,                 // the information text above the CPU block
    cpu: seq<CpuGrid.Row>,        // the per-core CPU block
    memDisk: string,              // the memory and disk totals line
    width: int                    // the width the two columns are centred in
  )

  /** The information text, with its markup's styling dropped, in its fixed order. */
  function InfoText(s: Snapshot, uptime: string, temp: string): string {
    "Username: " + s.username + "\n\n" +
    "Host: " + s.hostname + "\n\n" +
    "OS: " + s.osName + " " + s.osVersion + "\n\n" +
    "Uptime: " + uptime + "\n\n" +
    "Temp: " + temp + "\n\n" +
    "\nCPU Usage:"
  }

  /** The memory and disk totals line, each in whole binary gigabytes. */
  function MemDiskText(memTotal: nat, diskTotal: nat): string {
    "\nMEM: " + NatToString(WholeGiB(memTotal)) + " GB | DISK: " + NatToString(WholeGiB(diskTotal)) + " GB "
  }

  /** The logo key chosen once, when the program starts, for the host it runs on. */
  function StartupLogo(host: Distro.Host): (key: string)
    ensures key in Distro.LogoKeys
  {
    Distro.LogoFor(Distro.Resolve(host))
  }

  /** The frame for one tick. */
  function Compose(s: Snapshot, logo: string): Frame {
    Frame(
      logo,
      InfoText(s, Uptime.UptimeText(s.now, s.bootTime),
               Temperature.TempText(Temperature.FirstPackage(Temperature.Readings(s.sensors)))),
      CpuGrid.Grid(s.cpu),
      MemDiskText(s.memTotal, s.diskTotal),
      LayoutWidth(s.columns))
  }

  /** One tick, calling the temperature search and the CPU block builder; it yields Compose. */
  method RenderDashboard(s: Snapshot, logo: string) returns (frame: Frame)
    ensures frame == Compose(s, logo)
  {
    var uptime := Uptime.UptimeText(s.now, s.bootTime);
    var temp := Temperature.GetTemperature(s.sensors);
    var width := LayoutWidth(s.columns);
    var cpuTable := CpuGrid.BuildCpuTable(s.cpu);
    var memDisk := MemDiskText(s.memTotal, s.diskTotal);
    frame := Frame(logo, InfoText(s, uptime, temp), cpuTable, memDisk, width);
  }

  /** 3661.5 seconds since boot is shown as `1:01:01`. */
  lemma ExampleUptime()
    ensures Uptime.UptimeText(5000.5, 1339.0) == "1:01:01"
  {
    assert Uptime.TruncateToInt(5000.5 - 1339.0) == 3661;
    assert NatToString(1) == "1";
    assert Uptime.Clock(3661) == "1:01:01";
  }

  /** Four cores fill one data row, then its spacer. */
  lemma ExampleCpu()
    ensures CpuGrid.Grid([100, 500, 900, 1000]) ==
              [[CpuGrid.CoreCell(0, 100), CpuGrid.CoreCell(1, 500),
                CpuGrid.CoreCell(2, 900), CpuGrid.CoreCell(3, 1000)], []]
  {
    CpuGrid.OneFullRow(100, 500, 900, 1000);
  }

  /**
   * The cells of that row show gauges that read 10.0 %, 50.0 %, 90.0 % and
   * 100.0 % and have 1, 5, 9 and 10 full segments.
   */
  lemma ExampleCpuGauges()
    ensures var cpu: seq<Gauge.Tenths> := [100, 500, 900, 1000];
            forall c :: 0 <= c < 4 ==>
              && CpuGrid.CellGauge(CpuGrid.Grid(cpu)[0][c]).Some?
              && Gauge.ParseRender(CpuGrid.CellGauge(CpuGrid.Grid(cpu)[0][c]).value) == Some(cpu[c])
              && Gauge.LeadingFull(CpuGrid.CellGauge(CpuGrid.Grid(cpu)[0][c]).value) == [1, 5, 9, 10][c]
  {
    var cpu: seq<Gauge.Tenths> := [100, 500, 900, 1000];
    CpuGrid.OneFullRowShows(cpu);
    forall c | 0 <= c < 4
      ensures Gauge.Filled(cpu[c]) == [1, 5, 9, 10][c]
    {
      assert c == 0 || c == 1 || c == 2 || c == 3;
    }
  }

  /** One byte short of a binary gigabyte is 0 GB; exactly two are 2 GB. */
  lemma ExampleMemDisk()
    ensures MemDiskText(2 * GiB, GiB - 1) == "\nMEM: 2 GB | DISK: 0 GB "
  {
    assert WholeGiB(2 * GiB) == 2 && WholeGiB(GiB - 1) == 0;
    assert NatToString(2) == "2" && NatToString(0) == "0";
  }

  /**
   * A tick with four cores at 10 %, 50 %, 90 % and 100 %, no thermal sensors and
   * 3661.5 seconds since boot shows `Uptime: 1:01:01` and `Temp: N/A`, the CPU
   * block of ExampleCpu, and the totals of ExampleMemDisk, centred in 120 columns
   * of a 200-column terminal.
   */
  lemma ExampleTick()
    ensures var s := Snapshot("ada", "box", "Linux", "6.1", 5000.5, 1339.0, [], [100, 500, 900, 1000],
                              2 * GiB, GiB - 1, 200);
            var f := Compose(s, "arch");
            && f.info == InfoText(s, "1:01:01", "N/A")
            && f.cpu == CpuGrid.Grid([100, 500, 900, 1000])
            && f.memDisk == "\nMEM: 2 GB | DISK: 0 GB "
            && f.width == 120
  {
    var s := Snapshot("ada", "box", "Linux", "6.1", 5000.5, 1339.0, [], [100, 500, 900, 1000],
                      2 * GiB, GiB - 1, 200);
    ExampleUptime();
    ExampleMemDisk();
    assert Temperature.Readings([]) == [];
    assert Temperature.TempText(Temperature.FirstPackage([])) == "N/A";
  }
}
