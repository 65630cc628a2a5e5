/**
 * Choosing the distribution name that selects the logo.
 *
 * The host is given as values: the platform's system name, the lines of the
 * os-release file (None when it cannot be read), and whether each of three
 * marker files exists. A non-Linux system is "nonlinux". Otherwise the first
 * line beginning `ID=` decides: the text between its first and second `=`,
 * stripped of surrounding whitespace and then of every double quote, with
 * "archarm" renamed "arch" and anything else lowercased. Without such a line
 * the marker files are tried in order (arch-release, fedora-release,
 * debian_version) before the generic "linuxgen". The logo table is then looked
 * up with "linuxgen" as the default.
 */
module Distro {

  import opened Wrappers
  import opened Text

  datatype Host = Host(
    system: string,                  // the platform's system name, e.g. "Linux"
    osRelease: Option<seq<string>>,  // the lines of the os-release file; None if it cannot be read
    archRelease: bool,               // the arch-release marker file exists
    fedoraRelease: bool,             // the fedora-release marker file exists
    debianVersion: bool              // the debian_version marker file exists
  )

  /** The names the logo table has an entry for. */
  const LogoKeys: set<string> := {"arch", "ubuntu", "fedora", "linuxgen", "nonlinux"}

  const IdPrefix: string := "ID="

  predicate IsIdLine(line: string) {
    StartsWith(line, IdPrefix)
  }

  /**
   * `line.split("=")[1].strip().replace('"', '')` for a line that starts with `ID=`:
   * the second `=`-separated field, stripped, with its double quotes removed.
   */
  function IdValue(line: string): (v: string)
    requires IsIdLine(line)
    ensures '"' !in v
  {
    RemoveAll(Strip(TakeUntil(line[|IdPrefix|..], '=')), '"')
  }

  /** The name an `ID=` value stands for: "archarm" is renamed, anything else lowercased. */
  function Canonical(v: string): (d: string)
    ensures v == "archarm" ==> d == "arch"
    ensures v != "archarm" ==> d == Lower(v) && |d| == |v| && HasNoUpper(d)
  {
    if v == "archarm" then "arch" else Lower(v)
  }

  /** The name the marker files give, tried in order. */
  function Fallback(host: Host): (d: string)
    ensures d in LogoKeys - {"nonlinux"}
    ensures host.archRelease ==> d == "arch"
    ensures !host.archRelease && host.fedoraRelease ==> d == "fedora"
    ensures !host.archRelease && !host.fedoraRelease && host.debianVersion ==> d == "ubuntu"
    ensures !host.archRelease && !host.fedoraRelease && !host.debianVersion ==> d == "linuxgen"
  {
    if host.archRelease then "arch"
    else if host.fedoraRelease then "fedora"
    else if host.debianVersion then "ubuntu"
    else "linuxgen"
  }

  /** The first line that starts with `ID=`, if any. */
  function FirstIdLine(lines: seq<string>): (r: Option<string>)
    ensures r.Some? ==> IsIdLine(r.value)
  {
    if lines == [] then None
    else if IsIdLine(lines[0]) then Some(lines[0])
    else FirstIdLine(lines[1..])
  }

  /** The platform is Linux: its system name, lowercased, is "linux". */
  predicate IsLinux(system: string) {
    Lower(system) == "linux"
  }

  /** The distribution name for a host. */
  function Resolve(host: Host): string {
    if !IsLinux(host.system) then "nonlinux"
    else if host.osRelease.Some? && FirstIdLine(host.osRelease.value).Some?
    then Canonical(IdValue(FirstIdLine(host.osRelease.value).value))
    else Fallback(host)
  }

  /**
   * The detection with the source's loop over the os-release lines and its
   * early returns; it computes Resolve.
   */
  method GetDistro(host: Host) returns (distro: string)
    ensures distro == Resolve(host)
  {
    if !IsLinux(host.system) {
      return "nonlinux";
    }
    if host.osRelease.Some? {
      var lines := host.osRelease.value;
      var i := 0;
      while i < |lines|
        invariant i <= |lines|
        invariant FirstIdLine(lines[i..]) == FirstIdLine(lines)
      {
        if IsIdLine(lines[i]) {
          assert FirstIdLine(lines) == Some(lines[i]);
          var value := IdValue(lines[i]);
          if value == "archarm" {
            return "arch";
          }
          return Lower(value);
        }
        assert lines[i..][1..] == lines[i + 1..];
        i := i + 1;
      }
      assert lines[i..] == [];
    }
    assert Resolve(host) == Fallback(host);
    if host.archRelease {
      return "arch";
    }
    if host.fedoraRelease {
      return "fedora";
    }
    if host.debianVersion {
      return "ubuntu";
    }
    return "linuxgen";
  }

  /**
   * FirstIdLine finds the earliest `ID=` line: it is None exactly when no line
   * starts with `ID=`, and otherwise the line at the least such index.
   */
  lemma {:induction false} FirstIdLineIsFirst(lines: seq<string>)
    ensures FirstIdLine(lines).None? <==> forall i :: 0 <= i < |lines| ==> !IsIdLine(lines[i])
    ensures FirstIdLine(lines).Some? ==>
              exists i :: 0 <= i < |lines| && lines[i] == FirstIdLine(lines).value && IsIdLine(lines[i]) &&
                          forall j :: 0 <= j < i ==> !IsIdLine(lines[j])
  {
    if lines != [] && !IsIdLine(lines[0]) {
      FirstIdLineIsFirst(lines[1..]);
      if FirstIdLine(lines).Some? {
        var i :| 0 <= i < |lines[1..]| && lines[1..][i] == FirstIdLine(lines[1..]).value && IsIdLine(lines[1..][i]) &&
                 forall j :: 0 <= j < i ==> !IsIdLine(lines[1..][j]);
        assert lines[i + 1] == FirstIdLine(lines).value && IsIdLine(lines[i + 1]);
        assert forall j :: 0 <= j < i + 1 ==> !IsIdLine(lines[j]) by {
          forall j | 0 <= j < i + 1 ensures !IsIdLine(lines[j]) {
            if j > 0 {
              assert lines[j] == lines[1..][j - 1];
            }
          }
        }
      } else {
        forall i | 0 <= i < |lines| ensures !IsIdLine(lines[i]) {
          if i > 0 {
            assert lines[i] == lines[1..][i - 1];
          }
        }
      }
    } else if lines != [] {
      assert IsIdLine(lines[0]);
    }
  }

  /** Any system other than Linux is "nonlinux", whatever its files say. */
  lemma ResolveNonLinux(host: Host)
    requires !IsLinux(host.system)
    ensures Resolve(host) == "nonlinux"
  {
  }

  /**
   * The whole decision for a Linux host: the earliest `ID=` line wins when the
   * file was read and has one; otherwise the marker files decide.
   */
  lemma ResolveLinux(host: Host, lines: seq<string>, i: nat)
    requires IsLinux(host.system)
    requires host.osRelease == Some(lines)
    requires i < |lines| && IsIdLine(lines[i])
    requires forall j :: 0 <= j < i ==> !IsIdLine(lines[j])
    ensures Resolve(host) == Canonical(IdValue(lines[i]))
  {
    FirstIdLineIsFirst(lines);
    var w :| 0 <= w < |lines| && lines[w] == FirstIdLine(lines).value && IsIdLine(lines[w]) &&
             forall j :: 0 <= j < w ==> !IsIdLine(lines[j]);
    assert w == i;
  }

  /** Without a readable `ID=` line, a Linux host is named by its marker files. */
  lemma ResolveWithoutIdLine(host: Host)
    requires IsLinux(host.system)
    requires host.osRelease.None? ||
             forall i :: 0 <= i < |host.osRelease.value| ==> !IsIdLine(host.osRelease.value[i])
    ensures Resolve(host) == Fallback(host)
  {
    if host.osRelease.Some? {
      FirstIdLineIsFirst(host.osRelease.value);
    }
  }

  /**
   * An os-release line `ID=<v>` or `ID="<v>"`, as the file format writes it,
   * reads back as `v` whatever whitespace surrounds the value.
   */
  lemma IdLineRoundTrip(v: string, quoted: bool, pre: string, post: string)
    requires '=' !in v && '"' !in v
    requires v == [] || (!IsSpace(v[0]) && !IsSpace(v[|v| - 1]))
    requires AllSpace(pre) && AllSpace(post)
    ensures var q := if quoted then "\"" else "";
            IdValue(IdPrefix + pre + q + v + q + post) == v
  {
    var q := if quoted then "\"" else "";
    var line := IdPrefix + pre + q + v + q + post;
    var word := q + v + q;
    assert line[|IdPrefix|..] == pre + word + post;
    assert '=' !in pre + word + post by {
      assert forall k :: 0 <= k < |pre| ==> pre[k] != '=';
      assert forall k :: 0 <= k < |post| ==> post[k] != '=';
    }
    assert TakeUntil(pre + word + post, '=') == pre + word + post;
    StripPadded(pre, word, post);
    assert Strip(pre + word + post) == word;
    RemoveQuotes(q, v);
  }

  lemma RemoveQuotes(q: string, v: string)
    requires q == "\"" || q == ""
    requires '"' !in v
    ensures RemoveAll(q + v + q, '"') == v
  {
    RemoveAllConcat(q, v, '"');
    RemoveAllConcat(q + v, q, '"');
  }

  lemma {:induction false} RemoveAllConcat(a: string, b: string, c: char)
    ensures RemoveAll(a + b, c) == RemoveAll(a, c) + RemoveAll(b, c)
  {
    if a != [] {
      assert (a + b)[1..] == a[1..] + b;
      RemoveAllConcat(a[1..], b, c);
    } else {
      assert a + b == b;
    }
  }

  /** `ASCII_LOGOS.get(distro, ASCII_LOGOS["linuxgen"])`: the logo a name selects. */
  function LogoFor(distro: string): (key: string)
    ensures key in LogoKeys
    ensures distro in LogoKeys ==> key == distro
    ensures distro !in LogoKeys ==> key == "linuxgen"
  {
    if distro in LogoKeys then distro else "linuxgen"
  }

  /**
   * A name found without an `ID=` line always has its own logo; a name read from
   * an `ID=` line has one only when it is one of the table's keys.
   */
  lemma FallbackHasOwnLogo(host: Host)
    requires !IsLinux(host.system) ||
             host.osRelease.None? ||
             forall i :: 0 <= i < |host.osRelease.value| ==> !IsIdLine(host.osRelease.value[i])
    ensures LogoFor(Resolve(host)) == Resolve(host)
  {
    if IsLinux(host.system) {
      ResolveWithoutIdLine(host);
    }
  }

  /** A Linux host whose os-release file says `ID=<v>` on its second line. */
  function HostWithId(v: string): Host {
    Host("Linux", Some(["NAME=\"Some Linux\"\n", "ID=" + v + "\n"]), false, false, true)
  }

  lemma HostWithIdResolves(v: string)
    requires '=' !in v && '"' !in v
    requires v == [] || (!IsSpace(v[0]) && !IsSpace(v[|v| - 1]))
    ensures Resolve(HostWithId(v)) == Canonical(v)
  {
    HostWithIdTakesIdLine(v);
    PlainIdLine(v);
  }

  lemma PlainIdLine(v: string)
    requires '=' !in v && '"' !in v
    requires v == [] || (!IsSpace(v[0]) && !IsSpace(v[|v| - 1]))
    ensures IdValue("ID=" + v + "\n") == v
  {
    assert "ID=" + v + "\n" == IdPrefix + "" + "" + v + "" + "\n";
    IdLineRoundTrip(v, false, "", "\n");
  }

  lemma HostWithIdTakesIdLine(v: string)
    ensures Resolve(HostWithId(v)) == Canonical(IdValue("ID=" + v + "\n"))
  {
    var lines := HostWithId(v).osRelease.value;
    LowerLinux();
    assert !IsIdLine(lines[0]) by { assert lines[0][0] == 'N' != IdPrefix[0]; }
    assert IsIdLine(lines[1]);
    ResolveLinux(HostWithId(v), lines, 1);
  }

  /** `ID=archarm` is renamed "arch". */
  lemma ArchArmRenamed()
    ensures Resolve(HostWithId("archarm")) == "arch"
  {
    HostWithIdResolves("archarm");
  }

  /**
   * The rename is checked before lowercasing: `ID=ArchARM` becomes "archarm",
   * which has no logo of its own; the `ID=` line still wins over the marker file.
   */
  lemma ArchArmCapitalised()
    ensures Resolve(HostWithId("ArchARM")) == "archarm"
    ensures LogoFor(Resolve(HostWithId("ArchARM"))) == "linuxgen"
  {
    HostWithIdResolves("ArchARM");
    CanonicalArchArmCapitalised();
  }

  /** Any other value is lowercased: `ID=Ubuntu` selects the "ubuntu" logo. */
  lemma OtherValueLowercased()
    ensures Resolve(HostWithId("Ubuntu")) == "ubuntu"
  {
    HostWithIdResolves("Ubuntu");
    CanonicalUbuntu();
  }

  lemma CanonicalUbuntu()
    ensures Canonical("Ubuntu") == "ubuntu"
  {
    assert "Ubuntu" != "ArchARM";
    LowerIs("Ubuntu", "ubuntu");
  }

  lemma CanonicalArchArmCapitalised()
    ensures Canonical("ArchARM") == "archarm" && "archarm" !in LogoKeys
  {
    assert "ArchARM"[0] != "archarm"[0];
    LowerIs("ArchARM", "archarm");
  }

  lemma LowerIs(s: string, t: string)
    requires |s| == |t| && forall k :: 0 <= k < |s| ==> LowerChar(s[k]) == t[k]
    ensures Lower(s) == t
  {
  }

  lemma LowerLinux()
    ensures Lower("Linux") == "linux"
  {
    LowerIs("Linux", "linux");
  }
}
