# ESP32Netmap scanner core in Dafny

ESP32Netmap is an ESP32 sketch that serves a small web page from which a
user starts TCP port scans of the local network. This project models the
scanning core of `main.cpp`:

- `ipToString`, which formats an `IPAddress` as dotted decimal;
- `scanTarget`, which tries to connect to each port of a fixed catalogue on
  one address and logs the ports that accept;
- `handleAdvancedScan`, the HTTP handler that reads the `target` parameter.
  The target is one of three forms: a `/24` block (`a.b.c.x/24` gives hosts
  1 to 254), a last-octet range (`a.b.c.S-E`), or a literal address. The
  handler scans each address in turn and answers with the logs between two
  banners.

The Arduino `String` operations the handler depends on are modelled with
the ESP32 core's semantics:

- `indexOf` and `lastIndexOf` return -1 when the character is absent;
- `endsWith`;
- `substring` swaps its bounds when the left one is larger and clips both
  to the length;
- `toInt` is C's `atol`, so a text with no digit after its leading white
  space and optional sign reads as 0;
- `String(int)` renders the number in decimal.

Modules:

- `ArduinoString` (`arduino_string.dfy`): the `String` operations above,
  and the fact that `toInt` reads back what `String(i)` writes.
- `AddressRange` (`address_range.dfy`): the `Address` datatype,
  `IpToString`, and `Expand`. `Expand` maps a target text to the list of
  addresses the handler scans, in scan order. It is built from the exact
  `substring`, `indexOf` and `toInt` steps the handler performs.
- `PortSet` (`port_set.dfy`): the 33-port catalogue, kept in the source's
  four groups, and its shape.
- `ScanEngine` (`scan_engine.dfy`):
  - the specification functions `OpenPorts`, `ScanBlock`, `Blocks` and
    `Report`;
  - the imperative `ScanTarget`, `ScanHosts` (the counted loop of both
    multi-address branches), `ParseRange` and `HandleAdvancedScan`, each
    proved to return exactly what those functions describe;
  - lemmas about the logs and the report.

Whether a TCP connection succeeds is decided by the network, not by the
program. The model takes it as a parameter `accepts: (string, int) -> bool`.
Because no address of an expansion repeats (`HostsDistinct`) and no port
of the catalogue repeats (`CatalogDistinct`), each (address, port) pair is
probed at most once per request. So a pure oracle loses nothing for one
request.

Some behaviour follows from the code as written:

- The `/24` test runs before the `-` test, so `a.b.c.S-E/24` scans a whole
  block (`CidrTakesPrecedence`).
- A range bound with no digit after its leading white space and optional
  sign reads as 0
  (`RangeWithoutDigitsStartsAtZero`).
- A range whose end is below its start scans nothing (`EmptyRangeReport`).
- When the last `.` comes after the first `-`, `substring` swaps its bounds.
  The start is then read from the text that begins at the `-`, so it can be
  negative (`RangeStartIs` states both cases).

The catalogue in the code has 33 ports (`CatalogShape`).

## Model

| member | source | states |
|---|---|---|
| ArduinoString.EndsWith | main.cpp:86 | `endsWith(suffix)`: the text ends with the suffix; `Cidr24Expansion` and `RangeNotCidr` use it to tell the branches apart |
| ArduinoString.ToInt | main.cpp:97-98 | `toInt`, that is `atol`: skip white space, read an optional sign, then the longest digit prefix; `ToIntOfDecimal`, `ToIntOfDecimalThen` and `ToIntWithoutDigits` state what it reads |
| ArduinoString.DecimalString | main.cpp:89 | `String(i)`: decimal, with '-' in front exactly for a negative `i`; `ToIntOfDecimal` and `DecimalStringInjective` make it a faithful rendering |
| ArduinoString.IndexOf | main.cpp:93-95 | `indexOf` is -1 exactly when the character is absent; otherwise that position holds the character |
| ArduinoString.IndexOfAt | main.cpp:95 | an occurrence with none before it is the position `indexOf` reports (first occurrence) |
| ArduinoString.IndexOfFirst | main.cpp:95 | no occurrence comes before the reported position |
| ArduinoString.LastIndexOf | main.cpp:94 | `lastIndexOf` is -1 exactly when the character is absent; otherwise that position holds the character |
| ArduinoString.LastIndexOfAt | main.cpp:94 | an occurrence with none after it is the position `lastIndexOf` reports (last occurrence) |
| ArduinoString.LastIndexOfLast | main.cpp:87 | no occurrence comes after the reported position |
| ArduinoString.Substring | main.cpp:96-98 | `substring(l, r)` is the slice between the smaller and the larger bound, both clipped to the length |
| ArduinoString.NatToDecimalDigits | main.cpp:67 | a rendered number is all digits, with no leading zero except for 0 |
| ArduinoString.DecimalStringChars | main.cpp:89 | `String(i)` contains no '.' and no '/', and a '-' only in front of a negative number |
| ArduinoString.ToIntOfDecimal | main.cpp:97-98 | `toInt(String(i)) == i` for every integer |
| ArduinoString.DecimalStringInjective | main.cpp:100-101 | different integers render differently |
| ArduinoString.ToIntOfDecimalThen | main.cpp:98 | `toInt` reads a number's digits and stops at a following non-digit such as `/24` |
| ArduinoString.ToIntWithoutDigits | main.cpp:97 | a text with no digit after space and sign reads as 0 |
| AddressRange.IpToString | main.cpp:12-14 | `ipToString`: the four octets in decimal joined by dots, at least 7 characters; `AddressBase` and `Cidr24OfAddress` relate it to the `/24` branch |
| AddressRange.Expand | main.cpp:85-107 | the addresses `handleAdvancedScan` scans for a target, in order: hosts 1..254 for `/24`, the parsed range when there is a '-', else the input itself; a `/24` target always gives 254; `Cidr24Expansion`, `RangeExpansion` and `LiteralExpansion` state each branch |
| AddressRange.HostsShape | main.cpp:100-102 | the counted loop's addresses: max(0, hi-lo+1) of them, the k-th is `base + String(lo + k)` |
| AddressRange.HostsDistinct | main.cpp:100-102 | no address of an expansion appears twice |
| AddressRange.BaseIsPrefix | main.cpp:87 | the base is the input through its last '.', and no '.' follows it |
| AddressRange.Cidr24Expansion | main.cpp:86-90 | an input ending in `/24` expands to hosts 1..254 over the text through its last '.' |
| AddressRange.Cidr24Block | main.cpp:88-89 | a `/24` block has exactly 254 hosts `base+"1"`..`base+"254"` in order, never `.0` or `.255` |
| AddressRange.Cidr24HostOctets | main.cpp:87-89 | each host of a `/24` expansion is the base plus an octet that reads back as its position plus one |
| AddressRange.AddressBase | main.cpp:12-14 | a formatted address followed by `/24` takes the `/24` branch with its first three octets as base |
| AddressRange.Cidr24OfAddress | main.cpp:86-90 | the block of a formatted address is the 254 addresses sharing its first three octets, last octet 1..254 |
| AddressRange.CidrTakesPrecedence | main.cpp:86-93 | `prefix.S-E/24` is scanned as a 254-host block, although read as a range it would be S..E |
| AddressRange.RangeTokens | main.cpp:94-95 | in `prefix.S-E` the last '.' is before S and the first '-' after S |
| AddressRange.RangeBounds | main.cpp:96-98 | in `prefix.S-E` the bounds are `toInt(S)` and `toInt(E)` |
| AddressRange.RangeExpansion | main.cpp:93-102 | a range input expands to the hosts from the start bound to the end bound over the text through the last '.' |
| AddressRange.RangeStartIs | main.cpp:94-97 | the start bound is `toInt` of the text between the last '.' and the first '-', or from the '-' through the '.' when the '.' comes later (`substring`'s swap) |
| AddressRange.RangeEndIs | main.cpp:95-98 | the end bound is `toInt` of everything after the first '-' |
| AddressRange.DottedRangeExpansion | main.cpp:94-102 | `prefix.S-E` with decimal S, E expands to `prefix.S` .. `prefix.E` |
| AddressRange.RangeWithoutDigitsStartsAtZero | main.cpp:97 | a start text with no digit after its leading white space and optional sign makes the range start at host 0 |
| AddressRange.LiteralExpansion | main.cpp:104-107 | an input with no `/24` suffix and no '-' is scanned once, as written |
| PortSet.Ports | main.cpp:21-62 | the probed ports in declaration order, as the source's four groups concatenated; `CatalogShape`, `CatalogDistinct` and `CatalogNotSorted` state its properties |
| PortSet.CatalogShape | main.cpp:21-62 | 33 valid, distinct ports, starting 21, 22, 23 and ending 8899, 10000 |
| PortSet.CatalogDistinct | main.cpp:21-62 | no port of the catalogue repeats |
| PortSet.CatalogNotSorted | main.cpp:39-47 | the catalogue is not in numeric order (27017 is probed before 3389) |
| ScanEngine.OpenPorts | main.cpp:64-69 | the ports of a list that accept on an address, in list order, never more than the list; `OpenPortsMembership`, `OpenPortsInOrder` and `OpenPortsDistinct` characterise it |
| ScanEngine.ScanBlock | main.cpp:17-73 | the log of one address: the header line and one OPEN line per accepting catalogue port; `ScanBlockShape`, `SilentHost` and `OnlySshOpen` state its shape |
| ScanEngine.Report | main.cpp:83-109 | the 200 body: the start banner, the logs of the addresses in order, the end banner; `ReportFraming`, `BlocksAppend`, `EmptyReport` and `LiteralReport` state its properties |
| ScanEngine.ScanTarget | main.cpp:17-73 | the log is the header line followed by one OPEN line per accepting catalogue port, in catalogue order |
| ScanEngine.ScanHosts | main.cpp:100-102 | the loop appends the logs of `base + String(i)` for i = lo..hi, in order; nothing when hi < lo |
| ScanEngine.ParseRange | main.cpp:94-98 | the base is the input through its last '.'; the start is `toInt` of the text between the last '.' and the first '-', or of the text from the '-' through the '.' when the '.' comes later; the end is `toInt` of everything after the first '-'; these are the base and bounds `Expand` uses |
| ScanEngine.HandleAdvancedScan | main.cpp:76-110 | no target gives 400 "Missing target"; otherwise 200 and the banners around the logs of `Expand(target)` |
| ScanEngine.OpenPortsMembership | main.cpp:64-69 | a port is reported open exactly when it is in the list and accepts |
| ScanEngine.OpenPortsAppend | main.cpp:64-71 | probing two lists in turn reports the first list's open ports, then the second's |
| ScanEngine.OpenPortsInOrder | main.cpp:64-69 | of two accepting ports, the one probed first is logged first |
| ScanEngine.OpenPortsDistinct | main.cpp:64-69 | a list without repeats yields a report without repeats |
| ScanEngine.NoneOpen | main.cpp:64-69 | when no port accepts, none is reported |
| ScanEngine.OnlyOneOpen | main.cpp:64-69 | when exactly one port accepts, it alone is reported |
| ScanEngine.ScanBlockShape | main.cpp:18-72 | at most 33 OPEN lines, for distinct valid catalogue ports that accept |
| ScanEngine.SilentHost | main.cpp:18-72 | a host with nothing listening is logged with its header line only |
| ScanEngine.OnlySshOpen | main.cpp:64-67 | a host with only SSH listening logs its header and "[+] PORT 22 OPEN" |
| ScanEngine.OpenLineReadsBack | main.cpp:67 | the number between "[+] PORT " and " OPEN" reads back as the port |
| ScanEngine.BlocksAppend | main.cpp:88-90 | the logs of two address lists in turn are the first's logs, then the second's |
| ScanEngine.ReportFraming | main.cpp:83-109 | every successful body starts with the start banner and ends with the end banner |
| ScanEngine.EmptyReport | main.cpp:83-109 | with no address to scan the body is the two banners |
| ScanEngine.EmptyRangeReport | main.cpp:97-102 | a range whose end is below its start gives just the banners |
| ScanEngine.LiteralReport | main.cpp:104-109 | a literal target gives the banners around that one address's log |

## Left out

- WiFi setup, `setup`, `loop`, `Serial` output, the web server's routing
  and the HTML page: these are I/O and configuration, not scanning logic.
- `client.connect` with its 150 ms timeout and `client.stop`: these are
  network I/O. They are replaced by the `accepts` parameter, so timing and
  connection resources are not modelled.
- `yield()`: scheduling only, with no effect on the result.
- The `portsStr` argument of `scanTarget`: the source never reads it.
  `ScanTarget` keeps it as a parameter and ignores it too.
- The HTTP content type `text/plain` and the request object: the handler
  is modelled as a method from the optional `target` value to the status
  and body it sends.
- `ArduinoString.ToInt`: integers are unbounded, so `atol` (newlib's
  `strtol`) saturating at the 32-bit `LONG_MAX`/`LONG_MIN` is not modelled;
  with an end bound at `LONG_MAX` the test `i <= end` of the range loop
  never becomes false on the device, while the model's loop ends.
- `ArduinoString.IndexOf`: the C-string search (`strchr`) stops at the first
  NUL character, while the model searches the whole text; targets are taken
  to be NUL-free. A target such as `10.0.0.1` NUL `-3` (from `%00` in the
  URL) takes the literal branch on the device but the range branch in the
  model.
- `ArduinoString.LastIndexOf`: likewise, `strrchr` stops at the first NUL
  character and the model does not; targets are taken to be NUL-free.
- `ScanEngine.ScanHosts`: the loop counter is unbounded, so the overflow of
  `i++` when the range end is the largest `int` is not modelled.
- `ArduinoString.Substring`: the conversion of a negative argument to
  `unsigned int` is not modelled. It cannot arise in the handler, since
  `lastIndexOf(...) + 1` is never negative and the range branch runs only
  when `indexOf('-')` is non-negative.
- Characters: a Dafny `char` stands for one byte of the Arduino `String`,
  so a `string` here is a byte string, not Unicode text. Read that way,
  the modelled operations treat non-ASCII and invalid UTF-8 bytes as the
  device does, apart from the NUL and saturation cases above; `IsSpace` is
  the C-locale `isspace`.
- Memory: memory exhaustion while appending to `String` values is not
  modelled.
- The two multi-address loops of the handler are one method, `ScanHosts`,
  called with bounds 1 and 254 or with the parsed range. The loop body is
  the same in both.
