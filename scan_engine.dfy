/** The scanner: `scanTarget`, which probes every port of the catalogue on
    one address and logs the open ones, and `handleAdvancedScan`, which
    expands the `target` parameter of a request into addresses, scans each
    in turn and answers with the concatenated logs. Whether a connection
    succeeds is not something the program decides: it is the `Probe`
    parameter, the outcome `client.connect` would report. */
module ScanEngine {
  import opened ArduinoString
  import opened AddressRange
  import opened PortSet

  datatype Option<T> = None | Some(value: T)

  /** Whether a TCP connection to port `p` of the address written `ip` is
      accepted within the connect timeout. */
  type Probe = (string, int) -> bool

  const StartBanner: string := "--- MULTI-TARGET SCAN START ---\n"
  const EndBanner: string := "\n--- SCAN COMPLETE ---"
  const MissingTarget: string := "Missing target"

  /** The first line of the log of one address. */
  function Header(ip: string): (r: string) {
    ">> Scanning " + ip + "\n"
  }

  /** The log line for an open port. */
  function OpenLine(p: int): (r: string) {
    "[+] PORT " + DecimalString(p) + " OPEN\n"
  }

  /** The ports of `ps` that accept a connection on `ip`, in the order of
      `ps`. */
  function OpenPorts(ip: string, ps: seq<int>, accepts: Probe): (r: seq<int>)
    ensures |r| <= |ps|
  {
    if |ps| == 0 then []
    else
      var last := ps[|ps| - 1];
      OpenPorts(ip, ps[..|ps| - 1], accepts) + (if accepts(ip, last) then [last] else [])
  }

  /** One `OpenLine` per port of `ps`, in order. */
  function PortLines(ps: seq<int>): (r: string) {
    if |ps| == 0 then "" else PortLines(ps[..|ps| - 1]) + OpenLine(ps[|ps| - 1])
  }

  /** The log `scanTarget` returns for the address written `ip`. */
  function ScanBlock(ip: string, accepts: Probe): (r: string) {
    Header(ip) + PortLines(OpenPorts(ip, Ports, accepts))
  }

  /** The logs of the addresses of `ips`, one after the other. */
  function Blocks(ips: seq<string>, accepts: Probe): (r: string) {
    if |ips| == 0 then "" else Blocks(ips[..|ips| - 1], accepts) + ScanBlock(ips[|ips| - 1], accepts)
  }

  /** The body of a successful answer: the banners around the logs. */
  function Report(ips: seq<string>, accepts: Probe): (r: string) {
    StartBanner + Blocks(ips, accepts) + EndBanner
  }

  /** Probing one more port appends it to the report when it accepts. */
  lemma {:induction false} OpenPortsSnoc(ip: string, ps: seq<int>, p: int, accepts: Probe)
    ensures OpenPorts(ip, ps + [p], accepts) == OpenPorts(ip, ps, accepts) + (if accepts(ip, p) then [p] else [])
  {
    assert (ps + [p])[..|ps|] == ps;
  }

  /** One more open port appends one more OPEN line. */
  lemma {:induction false} PortLinesSnoc(ps: seq<int>, p: int)
    ensures PortLines(ps + [p]) == PortLines(ps) + OpenLine(p)
  {
    assert (ps + [p])[..|ps|] == ps;
  }

  /** One more address appends its log. */
  lemma {:induction false} BlocksSnoc(ips: seq<string>, ip: string, accepts: Probe)
    ensures Blocks(ips + [ip], accepts) == Blocks(ips, accepts) + ScanBlock(ip, accepts)
  {
    assert (ips + [ip])[..|ips|] == ips;
  }

  /** The first `k + 1` entries are the first `k` and then entry `k`: one
      iteration of a loop over `s`. */
  lemma {:induction false} TakeOneMore(s: seq<int>, k: int)
    requires 0 <= k < |s|
    ensures s[..k + 1] == s[..k] + [s[k]]
  {
  }

  /** Appending is associative; used where a log grows one line at a time. */
  lemma {:induction false} Associative<T>(a: seq<T>, b: seq<T>, c: seq<T>)
    ensures (a + b) + c == a + (b + c)
  {
  }

  /** An empty range has no hosts. */
  lemma {:induction false} NoHosts(base: string, lo: int, hi: int)
    requires hi < lo
    ensures Hosts(base, lo, hi) == []
  {
  }

  /** The log of a single address is its block. */
  lemma {:induction false} OneBlock(ip: string, accepts: Probe)
    ensures Blocks([ip], accepts) == ScanBlock(ip, accepts)
  {
    BlocksSnoc([], ip, accepts);
    assert [] + [ip] == [ip];
  }

  /** The answer body once the logs of all addresses are in. */
  lemma {:induction false} Finish(ips: seq<string>, accepts: Probe, scanned: string)
    requires scanned == Blocks(ips, accepts)
    ensures StartBanner + scanned + EndBanner == Report(ips, accepts)
  {
  }

  /** `scanTarget(ipStr, portsStr)`: probe each catalogue port in order and
      log the ones that accept. `portsStr` is not read. */
  method ScanTarget(ipStr: string, portsStr: string, accepts: Probe) returns (log: string)
    ensures log == ScanBlock(ipStr, accepts)
  {
    log := ">> Scanning " + ipStr + "\n";
    for k := 0 to |Ports|
      invariant log == Header(ipStr) + PortLines(OpenPorts(ipStr, Ports[..k], accepts))
    {
      var p := Ports[k];
      TakeOneMore(Ports, k);
      OpenPortsSnoc(ipStr, Ports[..k], p, accepts);
      if accepts(ipStr, p) {
        var open := OpenPorts(ipStr, Ports[..k], accepts);
        PortLinesSnoc(open, p);
        Associative(Header(ipStr), PortLines(open), OpenLine(p));
        log := log + ("[+] PORT " + DecimalString(p) + " OPEN\n");
      } else {
        assert OpenPorts(ipStr, Ports[..k + 1], accepts) == OpenPorts(ipStr, Ports[..k], accepts);
      }
    }
    assert Ports[..|Ports|] == Ports;
  }

  /** The counted loop both multi-address branches of `handleAdvancedScan`
      run: scan `base + String(i)` for `i` from `lo` up to `hi` and append
      each log. */
  method ScanHosts(base: string, lo: int, hi: int, accepts: Probe) returns (results: string)
    ensures results == Blocks(Hosts(base, lo, hi), accepts)
  {
    results := "";
    var i := lo;
    while i <= hi
      invariant lo <= i && (i == lo || i <= hi + 1)
      invariant results == Blocks(Hosts(base, lo, i - 1), accepts)
      decreases hi - i
    {
      var block := ScanTarget(base + DecimalString(i), "", accepts);
      HostsSnoc(base, lo, i);
      BlocksSnoc(Hosts(base, lo, i - 1), base + DecimalString(i), accepts);
      results := results + block;
      i := i + 1;
    }
    if hi < lo {
      NoHosts(base, lo, i - 1);
      NoHosts(base, lo, hi);
    }
  }

  /** The range branch's parsing: the base through the last '.', then the
      bounds as `toInt` of the text between the last '.' and the first '-'
      and of the text after that '-'. When the last '.' follows the first
      '-', `substring` swaps its bounds and the start is read from the text
      beginning at the '-'. */
  method ParseRange(input: string) returns (base: string, start: int, end: int)
    requires '-' in input
    ensures var dot, dash := LastIndexOf(input, '.'), IndexOf(input, '-');
      && base == input[..dot + 1]
      && start == ToInt(if dot < dash then input[dot + 1..dash] else input[dash..dot + 1])
      && end == ToInt(input[dash + 1..])
    ensures base == BaseOf(input) && start == RangeStart(input) && end == RangeEnd(input)
  {
    var dotPos := LastIndexOf(input, '.');
    var dashPos := IndexOf(input, '-');
    base := Substring(input, 0, dotPos + 1);
    start := ToInt(Substring(input, dotPos + 1, dashPos));
    end := ToInt(Substring(input, dashPos + 1, |input|));
    ParsedBase(input, dotPos, base);
    ParsedStart(input, dotPos, dashPos, start);
    ParsedEnd(input, dashPos, end);
  }

  /** `handleAdvancedScan`: without a `target` parameter the answer is 400
      "Missing target"; otherwise 200 and the report of the addresses the
      target expands to, scanned in that order. */
  method HandleAdvancedScan(target: Option<string>, accepts: Probe) returns (status: int, body: string)
    ensures target.None? ==> status == 400 && body == MissingTarget
    ensures target.Some? ==> status == 200 && body == Report(Expand(target.value), accepts)
  {
    if target.None? {
      return 400, "Missing target";
    }
    var input := target.value;
    var results := "--- MULTI-TARGET SCAN START ---\n";
    if EndsWith(input, "/24") {
      var base := Substring(input, 0, LastIndexOf(input, '.') + 1);
      var scanned := ScanHosts(base, 1, 254, accepts);
      results := results + scanned;
      assert Expand(input) == Hosts(base, 1, 254);
      Finish(Expand(input), accepts, scanned);
    } else if IndexOf(input, '-') != -1 {
      var base, start, end := ParseRange(input);
      var scanned := ScanHosts(base, start, end, accepts);
      results := results + scanned;
      ExpandRange(input);
      Finish(Expand(input), accepts, scanned);
    } else {
      var block := ScanTarget(input, "", accepts);
      results := results + block;
      assert Expand(input) == [input];
      OneBlock(input, accepts);
      Finish(Expand(input), accepts, block);
    }
    return 200, results + "\n--- SCAN COMPLETE ---";
  }

  /** A port is reported open exactly when it is in the list and accepts. */
  lemma {:induction false} OpenPortsMembership(ip: string, ps: seq<int>, accepts: Probe, p: int)
    ensures p in OpenPorts(ip, ps, accepts) <==> p in ps && accepts(ip, p)
  {
    if |ps| > 0 {
      var init, last := ps[..|ps| - 1], ps[|ps| - 1];
      OpenPortsMembership(ip, init, accepts, p);
      assert ps == init + [last];
    }
  }

  /** Probing two lists one after the other reports the open ports of the
      first, then those of the second. */
  lemma {:induction false} OpenPortsAppend(ip: string, a: seq<int>, b: seq<int>, accepts: Probe)
    ensures OpenPorts(ip, a + b, accepts) == OpenPorts(ip, a, accepts) + OpenPorts(ip, b, accepts)
    decreases |b|
  {
    if |b| == 0 {
      assert a + b == a;
    } else {
      var init, last := b[..|b| - 1], b[|b| - 1];
      assert b == init + [last];
      assert a + b == (a + init) + [last];
      OpenPortsAppend(ip, a, init, accepts);
      OpenPortsSnoc(ip, a + init, last, accepts);
      OpenPortsSnoc(ip, init, last, accepts);
      Associative(OpenPorts(ip, a, accepts), OpenPorts(ip, init, accepts), if accepts(ip, last) then [last] else []);
    }
  }

  /** Open ports are reported in list order: of two accepting ports, the
      one probed first is logged first. */
  lemma {:induction false} OpenPortsInOrder(ip: string, ps: seq<int>, accepts: Probe, i: int, j: int)
    requires 0 <= i < j < |ps| && accepts(ip, ps[i]) && accepts(ip, ps[j])
    ensures var r := OpenPorts(ip, ps, accepts);
      exists x, y :: 0 <= x < y < |r| && r[x] == ps[i] && r[y] == ps[j]
  {
    var front, back, rest := ps[..j], ps[j..], ps[j + 1..];
    assert ps == front + back;
    OpenPortsAppend(ip, front, back, accepts);
    var rf, rb := OpenPorts(ip, front, accepts), OpenPorts(ip, back, accepts);
    assert back[0] == ps[j];
    assert back == [ps[j]] + rest;
    OpenPortsAppend(ip, [ps[j]], rest, accepts);
    OpenPortsSnoc(ip, [], ps[j], accepts);
    assert [] + [ps[j]] == [ps[j]];
    assert rb[0] == ps[j];
    OpenPortsMembership(ip, front, accepts, ps[i]);
    assert ps[i] == front[i];
    var x :| 0 <= x < |rf| && rf[x] == ps[i];
    var r := OpenPorts(ip, ps, accepts);
    assert r == rf + rb;
    assert r[x] == ps[i] && r[|rf|] == ps[j];
  }

  /** A list without repeats yields a report without repeats. */
  lemma {:induction false} OpenPortsDistinct(ip: string, ps: seq<int>, accepts: Probe)
    requires Distinct(ps)
    ensures Distinct(OpenPorts(ip, ps, accepts))
  {
    if |ps| > 0 {
      var init, last := ps[..|ps| - 1], ps[|ps| - 1];
      assert Distinct(init) by {
        forall i, j | 0 <= i < j < |init| ensures init[i] != init[j] {
          assert init[i] == ps[i] && init[j] == ps[j];
        }
      }
      OpenPortsDistinct(ip, init, accepts);
      var q := OpenPorts(ip, init, accepts);
      if accepts(ip, last) {
        assert last !in init by {
          forall i | 0 <= i < |init| ensures init[i] != last {
            assert init[i] == ps[i];
          }
        }
        OpenPortsMembership(ip, init, accepts, last);
        var r := q + [last];
        forall i, j | 0 <= i < j < |r| ensures r[i] != r[j] {
          if j < |q| {
            assert r[i] == q[i] && r[j] == q[j];
          } else {
            assert r[i] == q[i] && q[i] in q;
          }
        }
      } else {
        assert OpenPorts(ip, ps, accepts) == q + [];
      }
    }
  }

  /** A host where no port accepts gets the header alone. */
  lemma {:induction false} NoneOpen(ip: string, ps: seq<int>, accepts: Probe)
    requires forall i :: 0 <= i < |ps| ==> !accepts(ip, ps[i])
    ensures OpenPorts(ip, ps, accepts) == []
  {
    if |ps| > 0 {
      NoneOpen(ip, ps[..|ps| - 1], accepts);
    }
  }

  /** When exactly the port at position `i` accepts, it is the only one
      reported. */
  lemma {:induction false} OnlyOneOpen(ip: string, ps: seq<int>, accepts: Probe, i: int)
    requires 0 <= i < |ps|
    requires forall j :: 0 <= j < |ps| ==> (accepts(ip, ps[j]) <==> j == i)
    ensures OpenPorts(ip, ps, accepts) == [ps[i]]
  {
    var front, back := ps[..i], ps[i + 1..];
    assert ps == front + [ps[i]] + back;
    OpenPortsAppend(ip, front + [ps[i]], back, accepts);
    OpenPortsSnoc(ip, front, ps[i], accepts);
    assert forall j :: 0 <= j < |front| ==> front[j] == ps[j];
    NoneOpen(ip, front, accepts);
    assert forall j :: 0 <= j < |back| ==> back[j] == ps[i + 1 + j];
    NoneOpen(ip, back, accepts);
  }

  /** The log of one address: at most one line per catalogue port, each
      for a distinct valid port of the catalogue that accepts, in catalogue
      order; nothing but the header when no port accepts. */
  lemma {:induction false} ScanBlockShape(ip: string, accepts: Probe)
    ensures var r := OpenPorts(ip, Ports, accepts);
      ScanBlock(ip, accepts) == Header(ip) + PortLines(r) &&
      |r| <= 33 && Distinct(r) &&
      (forall k :: 0 <= k < |r| ==> IsPort(r[k]) && r[k] in Ports && accepts(ip, r[k]))
  {
    var r := OpenPorts(ip, Ports, accepts);
    CatalogShape();
    OpenPortsDistinct(ip, Ports, accepts);
    forall k | 0 <= k < |r| ensures IsPort(r[k]) && r[k] in Ports && accepts(ip, r[k]) {
      OpenPortsMembership(ip, Ports, accepts, r[k]);
    }
  }

  /** Nothing listening: the log is the header line only. */
  lemma {:induction false} SilentHost(ip: string, accepts: Probe)
    requires forall i :: 0 <= i < |Ports| ==> !accepts(ip, Ports[i])
    ensures ScanBlock(ip, accepts) == Header(ip)
  {
    NoneOpen(ip, Ports, accepts);
    assert Header(ip) + "" == Header(ip);
  }

  /** Only SSH listening: the log is the header and one line for port 22. */
  lemma {:induction false} OnlySshOpen(ip: string, accepts: Probe)
    requires forall p :: accepts(ip, p) <==> p == 22
    ensures ScanBlock(ip, accepts) == ">> Scanning " + ip + "\n" + "[+] PORT 22 OPEN\n"
  {
    CatalogShape();
    assert Ports[1] == 22;
    OnlyOneOpen(ip, Ports, accepts, 1);
    PortLinesSnoc([], 22);
    assert [] + [22] == [22];
    assert DecimalString(22) == "22";
  }

  /** An open-port line reads back as its port: the number between
      "[+] PORT " and " OPEN" parses to the port. */
  lemma {:induction false} OpenLineReadsBack(p: int)
    ensures var line := OpenLine(p);
      9 + 6 <= |line| && line[..9] == "[+] PORT " && line[|line| - 6..] == " OPEN\n" &&
      ToInt(line[9..|line| - 6]) == p
  {
    var line := OpenLine(p);
    assert line[9..|line| - 6] == DecimalString(p);
    ToIntOfDecimal(p);
    SameText(line[9..|line| - 6], DecimalString(p));
  }

  /** The logs of two address lists one after the other. */
  lemma {:induction false} BlocksAppend(xs: seq<string>, ys: seq<string>, accepts: Probe)
    ensures Blocks(xs + ys, accepts) == Blocks(xs, accepts) + Blocks(ys, accepts)
    decreases |ys|
  {
    if |ys| == 0 {
      assert xs + ys == xs;
    } else {
      var init, last := ys[..|ys| - 1], ys[|ys| - 1];
      assert ys == init + [last];
      assert xs + ys == (xs + init) + [last];
      BlocksAppend(xs, init, accepts);
      BlocksSnoc(xs + init, last, accepts);
      BlocksSnoc(init, last, accepts);
      Associative(Blocks(xs, accepts), Blocks(init, accepts), ScanBlock(last, accepts));
    }
  }

  /** Every report starts with the start banner and ends with the end
      banner. */
  lemma {:induction false} ReportFraming(ips: seq<string>, accepts: Probe)
    ensures var r := Report(ips, accepts);
      |StartBanner| + |EndBanner| <= |r| &&
      r[..|StartBanner|] == StartBanner && r[|r| - |EndBanner|..] == EndBanner
  {
    var mid := Blocks(ips, accepts);
    var r := Report(ips, accepts);
    assert r == StartBanner + (mid + EndBanner);
    assert r == (StartBanner + mid) + EndBanner;
  }

  /** No address to scan: the report is the two banners. */
  lemma {:induction false} EmptyReport(accepts: Probe)
    ensures Report([], accepts) == StartBanner + EndBanner
  {
    NothingScanned([], accepts);
  }

  lemma {:induction false} NothingScanned(ips: seq<string>, accepts: Probe)
    requires |ips| == 0
    ensures Report(ips, accepts) == StartBanner + EndBanner
  {
    var b := Blocks(ips, accepts);
    assert |b| == 0;
    assert StartBanner + b == StartBanner;
  }

  /** A range whose end is below its start scans nothing. */
  lemma {:induction false} EmptyRangeReport(s: string, accepts: Probe)
    requires !EndsWith(s, "/24") && '-' in s && RangeEnd(s) < RangeStart(s)
    ensures Report(Expand(s), accepts) == StartBanner + EndBanner
  {
    ExpandRange(s);
    NoHosts(BaseOf(s), RangeStart(s), RangeEnd(s));
    NothingScanned(Expand(s), accepts);
  }

  /** A literal target is scanned once, as written. */
  lemma {:induction false} LiteralReport(s: string, accepts: Probe)
    requires !EndsWith(s, "/24") && '-' !in s
    ensures Report(Expand(s), accepts) == StartBanner + ScanBlock(s, accepts) + EndBanner
  {
    LiteralExpansion(s);
    OneBlock(s, accepts);
  }
}
