/**
  Printing and parsing volume mounts and port mappings for the container engines'
  command lines, on a host whose paths use forward slashes.
*/
module EngineFormat {
  import opened Wrappers
  import opened Text

  // ---------- Splitting and joining ----------

  function IndexOf(s: string, sep: char): (i: nat)
    requires sep in s
    ensures i < |s| && s[i] == sep && sep !in s[..i]
  {
    if s[0] == sep then 0 else 1 + IndexOf(s[1..], sep)
  }

  /** strings.Split on a one-character separator. */
  function Split(s: string, sep: char): (parts: seq<string>)
    ensures |parts| >= 1
    ensures forall p :: p in parts ==> sep !in p
  {
    if sep !in s then [s]
    else var i := IndexOf(s, sep); [s[..i]] + Split(s[i + 1..], sep)
  }

  /** strings.SplitN with a limit of two. */
  function SplitOnce(s: string, sep: char): (parts: seq<string>)
    ensures |parts| == if sep in s then 2 else 1
  {
    if sep !in s then [s] else var i := IndexOf(s, sep); [s[..i], s[i + 1..]]
  }

  lemma {:induction false} IndexOfFirst(a: string, sep: char, b: string)
    requires sep !in a
    ensures sep in a + [sep] + b && IndexOf(a + [sep] + b, sep) == |a|
    decreases a
  {
    var s := a + [sep] + b;
    assert s[|a|] == sep;
    if a == "" {
    } else {
      assert s[0] == a[0] && s[1..] == a[1..] + [sep] + b;
      IndexOfFirst(a[1..], sep, b);
    }
  }

  lemma SplitFirst(a: string, sep: char, b: string)
    requires sep !in a
    ensures Split(a + [sep] + b, sep) == [a] + Split(b, sep)
    ensures SplitOnce(a + [sep] + b, sep) == [a, b]
  {
    IndexOfFirst(a, sep, b);
    var s := a + [sep] + b;
    assert s[..|a|] == a && s[|a| + 1..] == b;
  }

  function Join(parts: seq<string>, sep: char): string {
    if parts == [] then ""
    else if |parts| == 1 then parts[0]
    else parts[0] + [sep] + Join(parts[1..], sep)
  }

  lemma {:induction false} JoinFirst(first: string, rest: seq<string>, sep: char)
    requires rest != []
    ensures Join([first] + rest, sep) == first + [sep] + Join(rest, sep)
  {
    assert ([first] + rest)[1..] == rest;
  }

  lemma JoinAtSeparator(s: string, sep: char, i: nat, rest: seq<string>)
    requires i < |s| && s[i] == sep && rest != [] && Join(rest, sep) == s[i + 1..]
    ensures Join([s[..i]] + rest, sep) == s
  {
    JoinFirst(s[..i], rest, sep);
    hide Join;
    assert s == s[..i] + [sep] + s[i + 1..];
  }

  /** Joining what was split gives the text back. */
  lemma {:induction false} SplitRejoins(s: string, sep: char)
    ensures Join(Split(s, sep), sep) == s
    decreases |s|
  {
    if sep in s {
      var i := IndexOf(s, sep);
      SplitRejoins(s[i + 1..], sep);
      hide Join;
      JoinAtSeparator(s, sep, i, Split(s[i + 1..], sep));
    }
  }

  /** Splitting what was joined gives the parts back. */
  lemma {:induction false} SplitOfJoin(parts: seq<string>, sep: char)
    requires parts != [] && forall p :: p in parts ==> sep !in p
    ensures Split(Join(parts, sep), sep) == parts
  {
    assert parts[0] in parts;
    if |parts| > 1 {
      SplitOfJoin(parts[1..], sep);
      SplitFirst(parts[0], sep, Join(parts[1..], sep));
    }
  }

  // ---------- Volume mounts ----------

  datatype VolumeMount = VolumeMount(hostPath: string, containerPath: string, readOnly: bool, seLinux: string)
  datatype MountError = BlankHostPath | BlankContainerPath | UnknownSELinuxLabel

  /** All field errors of a mount; none means it is valid. */
  function MountErrors(m: VolumeMount): seq<MountError> {
    (if Blank(m.hostPath) then [BlankHostPath] else [])
    + (if Blank(m.containerPath) then [BlankContainerPath] else [])
    + (if m.seLinux in {"", "z", "Z"} then [] else [UnknownSELinuxLabel])
  }

  predicate ValidMount(m: VolumeMount) {
    MountErrors(m) == []
  }

  function Options(m: VolumeMount): seq<string> {
    (if m.readOnly then ["ro"] else []) + (if m.seLinux != "" then [m.seLinux] else [])
  }

  function MountString(m: VolumeMount): string {
    m.hostPath + ":" + m.containerPath + if Options(m) == [] then "" else ":" + Join(Options(m), ',')
  }

  function WithOption(m: VolumeMount, opt: string): VolumeMount {
    if opt == "ro" then m.(readOnly := true)
    else if opt == "z" then m.(seLinux := "z")
    else if opt == "Z" then m.(seLinux := "Z")
    else m
  }

  function WithOptions(m: VolumeMount, opts: seq<string>): VolumeMount
    decreases opts
  {
    if opts == [] then m else WithOptions(WithOption(m, opts[0]), opts[1..])
  }

  /** The last label among the options is at index `i`. */
  predicate LastLabelAt(opts: seq<string>, i: nat) {
    i < |opts| && opts[i] in {"z", "Z"} && forall j :: i < j < |opts| ==> opts[j] !in {"z", "Z"}
  }

  /** "ro" anywhere makes the mount read-only, the last label wins, and nothing else has an effect. */
  lemma {:induction false} OptionsExact(m: VolumeMount, opts: seq<string>)
    ensures var o := WithOptions(m, opts);
      && o.hostPath == m.hostPath && o.containerPath == m.containerPath
      && (o.readOnly <==> m.readOnly || "ro" in opts)
      && (if forall i :: 0 <= i < |opts| ==> opts[i] !in {"z", "Z"} then o.seLinux == m.seLinux
          else exists i: nat :: LastLabelAt(opts, i) && o.seLinux == opts[i])
    decreases opts
  {
    if opts == [] {
    } else {
      var rest := opts[1..];
      assert opts == [opts[0]] + rest;
      OptionsExact(WithOption(m, opts[0]), rest);
      if exists i :: 0 <= i < |rest| && rest[i] in {"z", "Z"} {
        var i: nat :| LastLabelAt(rest, i) && WithOptions(m, opts).seLinux == rest[i];
        assert LastLabelAt(opts, i + 1);
      } else if opts[0] in {"z", "Z"} {
        assert LastLabelAt(opts, 0);
      }
    }
  }

  function MountOfParts(parts: seq<string>): VolumeMount
    requires |parts| >= 1
  {
    var m := VolumeMount(parts[0], if |parts| >= 2 then parts[1] else "", false, "");
    if |parts| >= 3 then WithOptions(m, Split(parts[2], ',')) else m
  }

  /** The mount a volume string denotes: unknown options and further parts are ignored. */
  function MountOf(volume: string): VolumeMount {
    MountOfParts(Split(volume, ':'))
  }

  /** What a volume string denotes, by its parts between colons and the options between commas. */
  lemma DenotedMount(parts: seq<string>)
    requires parts != [] && forall p :: p in parts ==> ':' !in p
    ensures var m := MountOf(Join(parts, ':'));
      && m.hostPath == parts[0]
      && m.containerPath == (if |parts| >= 2 then parts[1] else "")
      && (|parts| < 3 ==> !m.readOnly && m.seLinux == "")
      && (|parts| >= 3 ==>
            var opts := Split(parts[2], ',');
            && (m.readOnly <==> "ro" in opts)
            && (if forall i :: 0 <= i < |opts| ==> opts[i] !in {"z", "Z"} then m.seLinux == ""
                else exists i: nat :: LastLabelAt(opts, i) && m.seLinux == opts[i]))
  {
    SplitOfJoin(parts, ':');
    if |parts| >= 3 {
      OptionsExact(VolumeMount(parts[0], parts[1], false, ""), Split(parts[2], ','));
    }
  }

  predicate ColonFree(m: VolumeMount) {
    ':' !in m.hostPath && ':' !in m.containerPath
  }

  /** The paths that come out of parsing never contain a colon, and the label is always a known one. */
  lemma ParsedMountIsColonFree(volume: string)
    ensures ColonFree(MountOf(volume)) && MountOf(volume).seLinux in {"", "z", "Z"}
  {
    var parts := Split(volume, ':');
    assert parts[0] in parts;
    assert |parts| >= 2 ==> parts[1] in parts;
    if |parts| >= 3 {
      OptionsExact(VolumeMount(parts[0], parts[1], false, ""), Split(parts[2], ','));
    }
  }

  lemma SplitWhole(s: string, sep: char)
    requires sep !in s
    ensures Split(s, sep) == [s]
  {
  }

  lemma TwoOptions(m: VolumeMount, mark: string)
    requires mark in {"z", "Z"}
    ensures WithOptions(m, Split("ro" + [','] + mark, ',')) == m.(readOnly := true, seLinux := mark)
  {
    SplitFirst("ro", ',', mark);
    SplitWhole(mark, ',');
    var opts := ["ro", mark];
    assert opts[1..] == [mark] && [mark][1..] == [];
    assert WithOptions(WithOption(m, "ro"), [mark]) == WithOption(WithOption(m, "ro"), mark);
  }

  lemma OneOption(m: VolumeMount, opt: string)
    requires opt in {"ro", "z", "Z"}
    ensures WithOptions(m, Split(opt, ',')) == WithOption(m, opt)
  {
    SplitWhole(opt, ',');
    assert [opt][1..] == [];
  }

  /** The printed options parse back to the two fields they came from. */
  lemma OptionsRoundTrip(m: VolumeMount)
    requires m.seLinux in {"", "z", "Z"} && Options(m) != []
    ensures ':' !in Join(Options(m), ',')
    ensures WithOptions(m.(readOnly := false, seLinux := ""), Split(Join(Options(m), ','), ',')) == m
  {
    var plain := m.(readOnly := false, seLinux := "");
    if m.readOnly && m.seLinux != "" {
      TwoOptions(plain, m.seLinux);
      assert [m.seLinux][1..] == [] && Options(m)[1..] == [m.seLinux];
      assert Join(Options(m), ',') == "ro" + [','] + m.seLinux;
    } else {
      OneOption(plain, Options(m)[0]);
    }
  }

  lemma SplitTwo(a: string, b: string)
    requires ':' !in a && ':' !in b
    ensures Split(a + ":" + b, ':') == [a, b]
  {
    assert a + ":" + b == a + [':'] + b;
    SplitFirst(a, ':', b);
    SplitWhole(b, ':');
  }

  lemma SplitThree(a: string, b: string, c: string)
    requires ':' !in a && ':' !in b && ':' !in c
    ensures Split(a + ":" + b + (":" + c), ':') == [a, b, c]
  {
    assert a + ":" + b + (":" + c) == a + [':'] + (b + ":" + c);
    SplitFirst(a, ':', b + ":" + c);
    SplitTwo(b, c);
  }

  lemma SplitMountString(m: VolumeMount)
    requires ColonFree(m) && (Options(m) != [] ==> ':' !in Join(Options(m), ','))
    ensures Split(MountString(m), ':')
         == if Options(m) == [] then [m.hostPath, m.containerPath] else [m.hostPath, m.containerPath, Join(Options(m), ',')]
  {
    if Options(m) == [] {
      SplitTwo(m.hostPath, m.containerPath);
      assert MountString(m) == m.hostPath + ":" + m.containerPath;
    } else {
      SplitThree(m.hostPath, m.containerPath, Join(Options(m), ','));
    }
  }

  /** A valid mount is parsed back from what was printed exactly when its paths have no colon. */
  lemma MountRoundTripIffColonFree(m: VolumeMount)
    requires ValidMount(m)
    ensures MountOf(MountString(m)) == m <==> ColonFree(m)
  {
    ParsedMountIsColonFree(MountString(m));
    if ColonFree(m) {
      if Options(m) != [] {
        OptionsRoundTrip(m);
      }
      SplitMountString(m);
    }
  }

  /** The printed text, "ro" before the label. */
  lemma PrintedMount(m: VolumeMount)
    ensures var paths := m.hostPath + ":" + m.containerPath;
      && (m.readOnly && m.seLinux != "" ==> MountString(m) == paths + ":" + ("ro," + m.seLinux))
      && (m.readOnly && m.seLinux == "" ==> MountString(m) == paths + ":ro")
      && (!m.readOnly && m.seLinux != "" ==> MountString(m) == paths + ":" + m.seLinux)
      && (!m.readOnly && m.seLinux == "" ==> MountString(m) == paths)
  {
    var paths := m.hostPath + ":" + m.containerPath;
    if m.readOnly && m.seLinux != "" {
      assert Options(m) == ["ro", m.seLinux] && Options(m)[1..] == [m.seLinux];
      assert Join(Options(m), ',') == "ro," + m.seLinux;
      assert paths + ":" + ("ro," + m.seLinux) == paths + (":" + ("ro," + m.seLinux));
    } else if m.readOnly {
      assert Options(m) == ["ro"] && ":" + "ro" == ":ro";
    } else if m.seLinux != "" {
      assert Options(m) == [m.seLinux];
      assert paths + ":" + m.seLinux == paths + (":" + m.seLinux);
    }
  }

  method FormatVolumeMount(mount: VolumeMount) returns (result: string)
    ensures result == MountString(mount)
    ensures ValidMount(mount) ==> (MountOf(result) == mount <==> ColonFree(mount))
  {
    result := mount.hostPath + ":" + mount.containerPath;
    var options := [];
    if mount.readOnly {
      options := options + ["ro"];
    }
    if mount.seLinux != "" {
      options := options + [mount.seLinux];
    }
    if |options| > 0 {
      result := result + ":" + Join(options, ',');
    }
    if ValidMount(mount) {
      MountRoundTripIffColonFree(mount);
    }
  }

  method ParseVolumeMount(volume: string) returns (mount: VolumeMount, errs: seq<MountError>)
    ensures mount == MountOf(volume)
    ensures errs == MountErrors(mount)
  {
    mount := VolumeMount("", "", false, "");
    var parts := Split(volume, ':');
    if |parts| >= 1 {
      mount := mount.(hostPath := parts[0]);
    }
    if |parts| >= 2 {
      mount := mount.(containerPath := parts[1]);
    }
    if |parts| >= 3 {
      var options := Split(parts[2], ',');
      ghost var plain := mount;
      for i := 0 to |options|
        invariant WithOptions(mount, options[i..]) == WithOptions(plain, options)
      {
        assert options[i..][1..] == options[i + 1..];
        var opt := options[i];
        if opt == "ro" {
          mount := mount.(readOnly := true);
        } else if opt == "z" {
          mount := mount.(seLinux := "z");
        } else if opt == "Z" {
          mount := mount.(seLinux := "Z");
        }
      }
    }
    errs := [];
    if Blank(mount.hostPath) {
      errs := errs + [BlankHostPath];
    }
    if Blank(mount.containerPath) {
      errs := errs + [BlankContainerPath];
    }
    if mount.seLinux !in {"", "z", "Z"} {
      errs := errs + [UnknownSELinuxLabel];
    }
  }

  /** A volume string is refused for blank paths alone, both named: other labels than z and Z are never set. */
  lemma ParsedMountErrors(volume: string)
    ensures var m, errs := MountOf(volume), MountErrors(MountOf(volume));
      && (BlankHostPath in errs <==> forall c :: c in m.hostPath ==> IsSpace(c))
      && (BlankContainerPath in errs <==> forall c :: c in m.containerPath ==> IsSpace(c))
      && UnknownSELinuxLabel !in errs
  {
    ParsedMountIsColonFree(volume);
  }

  /** Printing an accepted volume string's mount and parsing it again changes nothing. */
  lemma AcceptedMountIsStable(volume: string)
    requires ValidMount(MountOf(volume))
    ensures MountOf(MountString(MountOf(volume))) == MountOf(volume)
  {
    ParsedMountIsColonFree(volume);
    MountRoundTripIffColonFree(MountOf(volume));
  }

  // ---------- Port mappings ----------

  type Port = p: int | 0 <= p < 0x1_0000

  datatype PortMapping = PortMapping(hostPort: Port, containerPort: Port, protocol: string)
  datatype PortResult =
    | Parsed(mapping: PortMapping) | NoSeparator | BadHostPort | BadContainerPort
    | InvalidMapping(rejected: PortMapping)

  predicate ValidPort(p: PortMapping) {
    p.hostPort != 0 && p.containerPort != 0 && p.protocol in {"", "tcp", "udp"}
  }

  function Digit(n: nat): char
    requires n < 10
  {
    '0' + (n as char)
  }

  predicate AllDigits(s: string) {
    forall i :: 0 <= i < |s| ==> '0' <= s[i] <= '9'
  }

  /** The decimal printer. */
  function Decimal(n: nat): (s: string)
    ensures s != "" && AllDigits(s)
  {
    if n < 10 then [Digit(n)] else Decimal(n / 10) + [Digit(n % 10)]
  }

  function Value(s: string): nat
    requires AllDigits(s)
  {
    if s == "" then 0
    else Value(s[..|s| - 1]) * 10 + (s[|s| - 1] as int - '0' as int)
  }

  /** strconv.ParseUint(s, 10, 16): no sign, no empty string, no value beyond 16 bits. */
  function ParseUint16(s: string): Option<Port> {
    if s == "" || !AllDigits(s) || Value(s) >= 0x1_0000 then None else Some(Value(s))
  }

  lemma {:induction false} DecimalValue(n: nat)
    ensures Value(Decimal(n)) == n
  {
    var s := Decimal(n);
    if n >= 10 {
      DecimalValue(n / 10);
      assert s[..|s| - 1] == Decimal(n / 10);
    } else {
      assert s[..0] == "";
    }
  }

  /** The number without its last `k` digits. */
  function Shifted(n: nat, k: nat): nat
    decreases k
  {
    if k == 0 then n else Shifted(n / 10, k - 1)
  }

  /** The k-th digit from the right, and no leading zero. */
  lemma {:induction false} DecimalDigits(n: nat, k: nat)
    ensures k < |Decimal(n)| ==> Decimal(n)[|Decimal(n)| - 1 - k] == "0123456789"[Shifted(n, k) % 10]
    ensures n > 0 ==> Decimal(n)[0] != '0'
    decreases n
  {
    if n >= 10 {
      DecimalDigits(n / 10, if k > 0 then k - 1 else 0);
    }
  }

  function Zeros(n: nat): string {
    seq(n, i => '0')
  }

  /** The number in decimal, perhaps after leading zeros. */
  ghost predicate Numeral(s: string, n: nat) {
    exists z: nat :: s == Zeros(z) + Decimal(n)
  }

  lemma NumeralNext(front: string, v: nat, d: nat)
    requires d < 10 && Numeral(front, v)
    ensures Numeral(front + [Digit(d)], v * 10 + d)
  {
    var z: nat :| front == Zeros(z) + Decimal(v);
    if v == 0 {
      assert front + [Digit(d)] == Zeros(z + 1) + Decimal(d);
    } else {
      var n := v * 10 + d;
      assert n >= 10 && n / 10 == v && n % 10 == d;
      assert Decimal(n) == Decimal(v) + [Digit(d)];
      assert front + [Digit(d)] == Zeros(z) + Decimal(n);
    }
  }

  /** Every text of digits is a numeral of its value. */
  lemma {:induction false} DigitsAreNumeral(s: string)
    requires s != "" && AllDigits(s)
    ensures Numeral(s, Value(s))
  {
    var front, d := s[..|s| - 1], s[|s| - 1] as int - '0' as int;
    assert Digit(d) == s[|s| - 1] && s == front + [Digit(d)] && Value(s) == Value(front) * 10 + d;
    if front == "" {
      assert s == Zeros(0) + Decimal(d) && Value(s) == d;
    } else {
      DigitsAreNumeral(front);
      NumeralNext(front, Value(front), d);
    }
  }

  lemma {:induction false} ZerosValue(z: nat)
    ensures AllDigits(Zeros(z)) && Value(Zeros(z)) == 0
  {
    if z > 0 {
      ZerosValue(z - 1);
      assert Zeros(z)[..z - 1] == Zeros(z - 1);
    }
  }

  /** A numeral of a number has its value, so no text is a numeral of two numbers. */
  lemma {:induction false} NumeralValue(z: nat, n: nat)
    ensures AllDigits(Zeros(z) + Decimal(n)) && Value(Zeros(z) + Decimal(n)) == n
    decreases n, z
  {
    var s := Zeros(z) + Decimal(n);
    if n >= 10 {
      NumeralValue(z, n / 10);
      assert s[..|s| - 1] == Zeros(z) + Decimal(n / 10);
    } else {
      assert s[..|s| - 1] == Zeros(z);
      ZerosValue(z);
    }
  }

  /** Accepted are the numerals of the numbers up to 65535, and nothing else. */
  lemma ParseUint16Iff(s: string, p: Port)
    ensures ParseUint16(s) == Some(p) <==> Numeral(s, p)
  {
    if s != "" && AllDigits(s) {
      DigitsAreNumeral(s);
    }
    if Numeral(s, p) {
      var z: nat :| s == Zeros(z) + Decimal(p);
      NumeralValue(z, p);
    }
  }

  function FormatPortMapping(p: PortMapping): string {
    Decimal(p.hostPort) + ":" + Decimal(p.containerPort)
    + if p.protocol != "" && p.protocol != "tcp" then "/" + p.protocol else ""
  }

  /** The mapping of a host port, a container port and perhaps a protocol, each still text. */
  function FromStrings(host: string, container: string, protocol: Option<string>): PortResult {
    match ParseUint16(host)
    case None => BadHostPort
    case Some(hostPort) =>
      match ParseUint16(container)
      case None => BadContainerPort
      case Some(containerPort) =>
        var p := PortMapping(hostPort, containerPort, match protocol case None => "" case Some(x) => x);
        if ValidPort(p) then Parsed(p) else InvalidMapping(p)
  }

  function ParsePortMapping(s: string): PortResult {
    var parts := SplitOnce(s, ':');
    if |parts| != 2 then NoSeparator
    else
      var containerParts := SplitOnce(parts[1], '/');
      FromStrings(parts[0], containerParts[0], if |containerParts| == 2 then Some(containerParts[1]) else None)
  }

  function PortText(host: string, container: string, protocol: Option<string>): string {
    host + ":" + container + match protocol case None => "" case Some(x) => "/" + x
  }

  lemma Reassociate(a: string, b: string, c: string)
    ensures a + [':'] + (b + ['/'] + c) == a + ":" + b + ("/" + c)
  {
  }

  lemma ParsePortText(host: string, container: string, protocol: Option<string>)
    requires ':' !in host && '/' !in container
    ensures ParsePortMapping(PortText(host, container, protocol)) == FromStrings(host, container, protocol)
  {
    match protocol
    case None =>
      assert PortText(host, container, protocol) == host + [':'] + container;
      SplitFirst(host, ':', container);
    case Some(x) =>
      Reassociate(host, container, x);
      SplitFirst(host, ':', container + ['/'] + x);
      SplitFirst(container, '/', x);
  }

  /** The default protocol is printed by leaving it out. */
  function Normalized(p: PortMapping): PortMapping {
    if p.protocol == "tcp" then p.(protocol := "") else p
  }

  /**
    Parsing a printed mapping returns it with tcp made implicit, for all ports from 1
    to 65535; an invalid mapping is rejected as that very mapping.
  */
  lemma PortRoundTrip(p: PortMapping)
    ensures ParsePortMapping(FormatPortMapping(p))
         == if ValidPort(p) then Parsed(Normalized(p)) else InvalidMapping(Normalized(p))
  {
    var protocol := if p.protocol != "" && p.protocol != "tcp" then Some(p.protocol) else None;
    assert FormatPortMapping(p) == PortText(Decimal(p.hostPort), Decimal(p.containerPort), protocol);
    ParsePortText(Decimal(p.hostPort), Decimal(p.containerPort), protocol);
    DecimalValue(p.hostPort);
    DecimalValue(p.containerPort);
  }

  /** Printing after parsing is idempotent on every accepted string. */
  lemma AcceptedPortIsStable(s: string)
    requires ParsePortMapping(s).Parsed?
    ensures var printed := FormatPortMapping(ParsePortMapping(s).mapping);
      && ParsePortMapping(printed).Parsed?
      && FormatPortMapping(ParsePortMapping(printed).mapping) == printed
  {
    var p := ParsePortMapping(s).mapping;
    assert ValidPort(p) && FormatPortMapping(Normalized(p)) == FormatPortMapping(p);
    hide ParsePortMapping, FormatPortMapping;
    PortRoundTrip(p);
  }

  lemma OncePartsRejoin(s: string, sep: char)
    requires sep in s
    ensures var parts := SplitOnce(s, sep); s == parts[0] + [sep] + parts[1]
  {
  }

  lemma ParsedIsPortText(s: string)
    requires ParsePortMapping(s).Parsed?
    ensures exists host, container, protocol ::
      s == PortText(host, container, protocol) && ParsePortMapping(s) == FromStrings(host, container, protocol)
  {
    OncePartsRejoin(s, ':');
    var parts := SplitOnce(s, ':');
    var rest := SplitOnce(parts[1], '/');
    if |rest| == 2 {
      OncePartsRejoin(parts[1], '/');
      Reassociate(parts[0], rest[0], rest[1]);
      assert s == PortText(parts[0], rest[0], Some(rest[1]));
    } else {
      assert s == PortText(parts[0], rest[0], None);
    }
  }

  /** Not a number from 0 to 65535. */
  ghost predicate NoPortNumber(s: string) {
    forall p: Port :: !Numeral(s, p)
  }

  lemma NumberOrNot(s: string)
    ensures ParseUint16(s).None? <==> NoPortNumber(s)
  {
    if p: Port :| Numeral(s, p) {
      ParseUint16Iff(s, p);
    }
    if ParseUint16(s).Some? {
      ParseUint16Iff(s, ParseUint16(s).value);
    }
  }

  lemma ParseNumericText(host: string, container: string, protocol: Option<string>)
    requires FromStrings(host, container, protocol).Parsed?
    ensures ParsePortMapping(PortText(host, container, protocol)) == FromStrings(host, container, protocol)
  {
    ParsePortText(host, container, protocol);
  }

  /** The protocol follows a slash; it is tcp or udp, or missing with or without the slash. */
  predicate PortSuffix(s: string, ports: string, protocol: string) {
    || (s == ports && protocol == "")
    || (s == ports + ("/" + protocol) && (protocol == "" || protocol == "tcp" || protocol == "udp"))
  }

  /** `s` is two decimal numbers from 1 to 65535 with a colon between them, and perhaps a slash and a protocol. */
  ghost predicate DenotesPort(s: string, p: PortMapping) {
    && 1 <= p.hostPort <= 65535 && 1 <= p.containerPort <= 65535
    && exists host, container ::
         && Numeral(host, p.hostPort) && Numeral(container, p.containerPort)
         && PortSuffix(s, host + ":" + container, p.protocol)
  }

  lemma DenotedIsAccepted(s: string, p: PortMapping)
    requires DenotesPort(s, p)
    ensures ParsePortMapping(s) == Parsed(p)
  {
    var host, container :|
      && Numeral(host, p.hostPort) && Numeral(container, p.containerPort)
      && PortSuffix(s, host + ":" + container, p.protocol);
    ParseUint16Iff(host, p.hostPort);
    ParseUint16Iff(container, p.containerPort);
    if s == host + ":" + container && p.protocol == "" {
      ParseNumericText(host, container, None);
      assert s == PortText(host, container, None);
    } else {
      ParseNumericText(host, container, Some(p.protocol));
    }
  }

  lemma AcceptedIsDenoted(s: string)
    requires ParsePortMapping(s).Parsed?
    ensures DenotesPort(s, ParsePortMapping(s).mapping)
  {
    ParsedIsPortText(s);
    var p := ParsePortMapping(s).mapping;
    var host, container, protocol :|
      s == PortText(host, container, protocol) && ParsePortMapping(s) == FromStrings(host, container, protocol);
    ParseUint16Iff(host, p.hostPort);
    ParseUint16Iff(container, p.containerPort);
    assert PortSuffix(s, host + ":" + container, p.protocol);
  }

  /** Exactly the strings that denote a valid mapping are accepted, each as that mapping. */
  lemma AcceptedPortStrings(s: string, p: PortMapping)
    ensures ParsePortMapping(s) == Parsed(p) <==> DenotesPort(s, p)
  {
    hide ParsePortMapping, DenotesPort;
    if ParsePortMapping(s) == Parsed(p) {
      AcceptedIsDenoted(s);
    }
    if DenotesPort(s, p) {
      DenotedIsAccepted(s, p);
    }
  }

  /** What a refused string is told: the first part that cannot be read, or else the mapping that is invalid. */
  lemma PortErrors(host: string, container: string, protocol: Option<string>)
    requires ':' !in host && '/' !in container
    ensures var r := ParsePortMapping(PortText(host, container, protocol));
      && (r == BadHostPort <==> NoPortNumber(host))
      && (r == BadContainerPort <==> !NoPortNumber(host) && NoPortNumber(container))
      && (!NoPortNumber(host) && !NoPortNumber(container) ==> r.Parsed? || r.InvalidMapping?)
    ensures ParsePortMapping(host) == NoSeparator
  {
    ParsePortText(host, container, protocol);
    NumberOrNot(host);
    NumberOrNot(container);
  }
}
