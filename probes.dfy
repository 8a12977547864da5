/** The `get_*` probes of `RouterSpyApp` and `run_ipconfig_command`: each one
    dispatches on `platform.system()`, takes the captured output of one shell
    command and post-processes it into the value shown in the table.  The
    commands themselves are not run here: their captured output is part of the
    `Host` the probes read. */
module Probes {
  import opened Outcomes
  import opened PyStr
  import opened PyInt
  import opened Netmask
  import opened Scanners

  /** The operating-system families the probes tell apart. */
  datatype Family = Windows | Darwin | Linux | Unsupported

  /** The branch taken for the text `platform.system()` returns. */
  function FamilyOf(system: string): (f: Family)
    ensures f == Windows <==> system == "Windows"
    ensures f == Darwin <==> system == "Darwin"
    ensures f == Linux <==> system == "Linux"
  {
    if system == "Windows" then Windows
    else if system == "Darwin" then Darwin
    else if system == "Linux" then Linux
    else Unsupported
  }

  /** What `subprocess.check_output(cmd).decode()` gave: the text, or an
      exception (non-zero exit status, missing command, undecodable bytes). */
  datatype Capture = Output(text: string) | Failed

  /** A probe's return value: a string, Python's `None` (a branch that falls
      off the end of the function), or `str(e)` of a caught exception, whose
      text is left opaque. */
  datatype Value = Str(s: string) | NoneValue | Error

  /** The regular-expression searches the model does not spell out, as
      functions of the captured text.  The `seq` results are `re.findall`
      lists; the `Option` results are the first match's group, `None` when
      `re.search` finds nothing. */
  datatype Scrapers = Scrapers(
    keywordMatches: (string, string) -> seq<string>,  // rf'{keyword}.*?:\s*([\d\.]+)'
    adapterNames: string -> seq<string>,              // r'Adapter (.*):'
    interfaceNames: string -> seq<string>,            // r'^(\w+): flags', re.MULTILINE
    netmaskWord: string -> Option<string>,            // r'netmask (\w+)'
    linuxMask: string -> Option<string>,              // r'Mask:([\d\.]+)'
    getmacAddress: string -> Option<string>,          // r'([A-F0-9-]{17})'
    etherAddress: string -> Option<string>)           // r'ether ([\w:]+)'

  /** Everything the probes read from the machine: the platform strings, the
      local host's name and address lookup, and the captured output of each
      shell command run.  A command that several probes run is run once by
      each of them, so each run has its own capture and can fail on its own. */
  datatype Host = Host(
    system: string,            // platform.system()
    version: string,           // platform.version()
    hostname: string,          // socket.gethostname()
    hostAddress: Capture,      // socket.gethostbyname(socket.gethostname())
    ipconfigAllFor: string -> Capture,  // ipconfig /all, run by run_ipconfig_command(keyword)
    ipconfigAllDhcp: Capture,      // ipconfig /all, run by get_dhcp_status
    ipconfigAllAdapters: Capture,  // ipconfig /all, run by get_network_interfaces
    getifaddr: Capture,        // ipconfig getifaddr en0
    hostnameI: Capture,        // hostname -I
    ifconfigEn0: Capture,      // ifconfig en0
    ifconfigMask: Capture,     // ifconfig, run by get_subnet_mask
    ifconfigEther: Capture,    // ifconfig, run by get_mac_address
    ifconfigFlags: Capture,    // ifconfig, run by get_network_interfaces
    netstatDefault: Capture,   // netstat -nr | grep default
    ipRouteDefault: Capture,   // ip r | grep default
    resolvConf: Capture,       // cat /etc/resolv.conf
    getmac: Capture,           // getmac
    getpacket: Capture,        // ipconfig getpacket en0
    nmcli: Capture,            // nmcli dev show
    nslookup: Capture,         // nslookup myip.opendns.com resolver1.opendns.com
    scrapers: Scrapers)

  /** The family `platform.system()` reports on this host. */
  function Os(h: Host): Family
  {
    FamilyOf(h.system)
  }

  /** `output.split()[k]`: the k-th whitespace token; an `IndexError` when
      there are too few. */
  function TokenAt(text: string, k: nat): (v: Value)
    ensures v.Str? <==> k < |Tokens(text)|
    ensures v.Str? ==> IsToken(v.s)
    ensures !v.Str? ==> v == Error
  {
    TokensAreTokens(text);
    var ts := Tokens(text);
    if k < |ts| then Str(ts[k]) else Error
  }

  /** `re.search(...).group(1)`: `None.group` raises when there is no match. */
  function Group(m: Option<string>): (v: Value)
    ensures v.Str? <==> m.Some?
    ensures v.Str? ==> v.s == m.value
    ensures !v.Str? ==> v == Error
  {
    match m
    case Some(g) => Str(g)
    case None => Error
  }

  // ---------------------------------------------------------------------------
  // run_ipconfig_command

  const NotSupported: string := "Command not supported on this OS"

  /** `run_ipconfig_command(keyword)`: on Windows, the numbers found after the
      keyword in `ipconfig /all`, joined by ", "; elsewhere a fixed message. */
  function RunIpconfig(h: Host, keyword: string): (v: Value)
    ensures Os(h) != Windows ==> v == Str(NotSupported)
    ensures Os(h) == Windows && h.ipconfigAllFor(keyword).Failed? ==> v == Error
    ensures Os(h) == Windows && h.ipconfigAllFor(keyword).Output? ==>
              v == Str(Join(h.scrapers.keywordMatches(h.ipconfigAllFor(keyword).text, keyword), ", "))
  {
    if Os(h) == Windows then
      match h.ipconfigAllFor(keyword)
      case Output(text) => Str(Join(h.scrapers.keywordMatches(text, keyword), ", "))
      case Failed => Error
    else Str(NotSupported)
  }

  // ---------------------------------------------------------------------------
  // get_ip_address

  /** `get_ip_address`: the resolved host address on Windows, the stripped
      `ipconfig getifaddr en0` output on Darwin, the first `hostname -I` token
      on Linux, `None` elsewhere. */
  function IpAddress(h: Host): (v: Value)
    ensures Os(h) == Unsupported <==> v == NoneValue
  {
    match Os(h)
    case Windows =>
      (match h.hostAddress
       case Output(addr) => Str(addr)
       case Failed => Error)
    case Darwin =>
      (match h.getifaddr
       case Output(text) => Str(Strip(text))
       case Failed => Error)
    case Linux =>
      (match h.hostnameI
       case Output(text) => TokenAt(Strip(text), 0)
       case Failed => Error)
    case Unsupported => NoneValue
  }

  // ---------------------------------------------------------------------------
  // get_subnet_mask

  /** The Darwin branch: the word after "netmask" in `ifconfig en0`, converted
      by `convert_netmask`. */
  function DarwinMask(text: string, s: Scrapers): (v: Value)
    ensures v != NoneValue
  {
    var word := Group(s.netmaskWord(text));
    if !word.Str? then word
    else
      match NetmaskText(word.s)
      case Ok(mask) => Str(mask)
      case Raised => Error
  }

  /** `get_subnet_mask`. */
  function SubnetMask(h: Host): (v: Value)
    ensures Os(h) == Unsupported <==> v == NoneValue
    ensures Os(h) == Windows ==> v == RunIpconfig(h, "Subnet Mask")
  {
    match Os(h)
    case Windows => RunIpconfig(h, "Subnet Mask")
    case Darwin =>
      (match h.ifconfigEn0
       case Output(text) => DarwinMask(text, h.scrapers)
       case Failed => Error)
    case Linux =>
      (match h.ifconfigMask
       case Output(text) => Group(h.scrapers.linuxMask(text))
       case Failed => Error)
    case Unsupported => NoneValue
  }

  // ---------------------------------------------------------------------------
  // get_default_gateway

  /** `get_default_gateway`: the 2nd token of the default route on Darwin, the
      3rd on Linux. */
  function DefaultGateway(h: Host): (v: Value)
    ensures Os(h) == Unsupported <==> v == NoneValue
    ensures Os(h) == Windows ==> v == RunIpconfig(h, "Default Gateway")
  {
    match Os(h)
    case Windows => RunIpconfig(h, "Default Gateway")
    case Darwin =>
      (match h.netstatDefault
       case Output(text) => TokenAt(text, 1)
       case Failed => Error)
    case Linux =>
      (match h.ipRouteDefault
       case Output(text) => TokenAt(text, 2)
       case Failed => Error)
    case Unsupported => NoneValue
  }

  // ---------------------------------------------------------------------------
  // get_dns_servers

  /** `get_dns_servers`: the `nameserver` addresses of `/etc/resolv.conf` on
      Darwin and Linux. */
  function DnsServers(h: Host): (v: Value)
    ensures Os(h) == Unsupported <==> v == NoneValue
    ensures Os(h) == Windows ==> v == RunIpconfig(h, "DNS Servers")
  {
    match Os(h)
    case Windows => RunIpconfig(h, "DNS Servers")
    case Darwin | Linux =>
      (match h.resolvConf
       case Output(text) => Str(DnsList(text))
       case Failed => Error)
    case Unsupported => NoneValue
  }

  // ---------------------------------------------------------------------------
  // get_mac_address

  /** `get_mac_address`: the first `getmac` address on Windows, the `ether`
      field of `ifconfig` on Darwin and Linux. */
  function MacAddress(h: Host): (v: Value)
    ensures Os(h) == Unsupported <==> v == NoneValue
  {
    match Os(h)
    case Windows =>
      (match h.getmac
       case Output(text) => Group(h.scrapers.getmacAddress(text))
       case Failed => Error)
    case Darwin | Linux =>
      (match h.ifconfigEther
       case Output(text) => Group(h.scrapers.etherAddress(text))
       case Failed => Error)
    case Unsupported => NoneValue
  }

  // ---------------------------------------------------------------------------
  // get_dhcp_status

  const WindowsDhcpMarker: string := "DHCP Enabled. . . . . . . . . . . : Yes"
  const DarwinDhcpMarker: string := "yiaddr"
  const LinuxDhcpMarker: string := "DHCP4"

  /** `"Yes" if marker in output else "No"` on a captured output. */
  function MarkerTest(c: Capture, marker: string): Value
  {
    match c
    case Output(text) => Str(if Contains(text, marker) then "Yes" else "No")
    case Failed => Error
  }

  /** `get_dhcp_status`. */
  function DhcpStatus(h: Host): (v: Value)
    ensures Os(h) == Unsupported <==> v == NoneValue
  {
    match Os(h)
    case Windows => MarkerTest(h.ipconfigAllDhcp, WindowsDhcpMarker)
    case Darwin => MarkerTest(h.getpacket, DarwinDhcpMarker)
    case Linux => MarkerTest(h.nmcli, LinuxDhcpMarker)
    case Unsupported => NoneValue
  }

  // ---------------------------------------------------------------------------
  // get_isp_info

  const PublicIpPrefix: string := "Public IP: "

  /** `get_isp_info`, the same on every OS: the first dotted quad after
      "Address: " in the `nslookup` answer; `None` when there is none. */
  function IspInfo(h: Host): (v: Value)
    ensures h.nslookup.Failed? <==> v == Error
    ensures v.Str? ==> StartsWith(v.s, PublicIpPrefix) && IsDottedQuad(v.s[|PublicIpPrefix|..])
  {
    match h.nslookup
    case Output(text) =>
      SearchAddressFound(text);
      (match SearchAddress(text)
       case Some(ip) =>
         assert (PublicIpPrefix + ip)[|PublicIpPrefix|..] == ip;
         Str(PublicIpPrefix + ip)
       case None => NoneValue)
    case Failed => Error
  }

  // ---------------------------------------------------------------------------
  // get_network_interfaces

  /** `get_network_interfaces`.  On an unsupported OS neither branch binds
      `interfaces`, so the join raises `UnboundLocalError`, which the handler
      turns into an error value. */
  function NetworkInterfaces(h: Host): (v: Value)
    ensures v != NoneValue
    ensures Os(h) == Unsupported ==> v == Error
  {
    match Os(h)
    case Windows =>
      (match h.ipconfigAllAdapters
       case Output(text) => Str(Join(h.scrapers.adapterNames(text), ", "))
       case Failed => Error)
    case Darwin | Linux =>
      (match h.ifconfigFlags
       case Output(text) => Str(Join(h.scrapers.interfaceNames(text), ", "))
       case Failed => Error)
    case Unsupported => Error
  }

  // ---------------------------------------------------------------------------
  // Properties of the probes

  /** The output the DHCP probe reads on each supported family. */
  function DhcpCapture(h: Host): Capture
  {
    match Os(h)
    case Windows => h.ipconfigAllDhcp
    case Darwin => h.getpacket
    case _ => h.nmcli
  }

  /** The marker the DHCP probe looks for on each supported family. */
  function DhcpMarker(f: Family): string
  {
    match f
    case Windows => WindowsDhcpMarker
    case Darwin => DarwinDhcpMarker
    case _ => LinuxDhcpMarker
  }

  /** When its command succeeds, the DHCP probe answers exactly "Yes" or "No",
      and "Yes" exactly when the family's marker occurs in the output. */
  lemma DhcpAnswer(h: Host)
    requires Os(h) != Unsupported && DhcpCapture(h).Output?
    ensures DhcpStatus(h) == Str("Yes") || DhcpStatus(h) == Str("No")
    ensures DhcpStatus(h) == Str("Yes") <==>
              exists i :: OccursAt(DhcpCapture(h).text, DhcpMarker(Os(h)), i)
  {
    assert DhcpStatus(h) == MarkerTest(DhcpCapture(h), DhcpMarker(Os(h)));
    ContainsIff(DhcpCapture(h).text, DhcpMarker(Os(h)));
  }

  /** A failed command makes the DHCP probe an error value. */
  lemma DhcpFailure(h: Host)
    requires Os(h) != Unsupported && DhcpCapture(h).Failed?
    ensures DhcpStatus(h) == Error
  {
  }

  /** Picking the k-th token of whitespace-separated fields (padded columns,
      several lines, the newline `grep` leaves) returns the k-th field, or an
      error when there are at most k of them. */
  lemma TokenAtOfFields(lead: string, ts: seq<string>, ws: seq<string>, k: nat)
    requires AllSpace(lead) && Separated(ts, ws)
    ensures TokenAt(lead + Fields(ts, ws), k) == if k < |ts| then Str(ts[k]) else Error
  {
    TokensOfFields(lead, ts, ws);
  }

  /** On Darwin the gateway probe reads the 2nd token of `netstat`. */
  lemma DarwinGatewayToken(h: Host)
    requires Os(h) == Darwin && h.netstatDefault.Output?
    ensures DefaultGateway(h) == TokenAt(h.netstatDefault.text, 1)
  {
  }

  /** On Linux the gateway probe reads the 3rd token of `ip r`. */
  lemma LinuxGatewayToken(h: Host)
    requires Os(h) == Linux && h.ipRouteDefault.Output?
    ensures DefaultGateway(h) == TokenAt(h.ipRouteDefault.text, 2)
  {
  }

  /** On Darwin the gateway is the 2nd whitespace-separated field of the
      `netstat` output, however the columns are padded (the 2nd field of the
      first default route when that has two); too few fields give an error
      value, never a crash. */
  lemma DarwinGateway(h: Host, lead: string, ts: seq<string>, ws: seq<string>)
    requires Os(h) == Darwin
    requires AllSpace(lead) && Separated(ts, ws)
    requires h.netstatDefault == Output(lead + Fields(ts, ws))
    ensures DefaultGateway(h) == if |ts| >= 2 then Str(ts[1]) else Error
  {
    DarwinGatewayToken(h);
    TokenAtOfFields(lead, ts, ws, 1);
  }

  /** On Linux the gateway is the 3rd whitespace-separated field of the
      `ip r` output; too few fields give an error value, never a crash. */
  lemma LinuxGateway(h: Host, lead: string, ts: seq<string>, ws: seq<string>)
    requires Os(h) == Linux
    requires AllSpace(lead) && Separated(ts, ws)
    requires h.ipRouteDefault == Output(lead + Fields(ts, ws))
    ensures DefaultGateway(h) == if |ts| >= 3 then Str(ts[2]) else Error
  {
    LinuxGatewayToken(h);
    TokenAtOfFields(lead, ts, ws, 2);
  }

  /** On Linux, stripping `hostname -I` output before `split()` changes
      nothing: the address is the first whitespace token of the raw output. */
  lemma LinuxIpIsFirstToken(h: Host)
    requires Os(h) == Linux && h.hostnameI.Output?
    ensures IpAddress(h) == TokenAt(h.hostnameI.text, 0)
  {
    TokensOfStrip(h.hostnameI.text);
  }

  /** On Darwin and Linux the DNS value splits back, at ", ", into the
      addresses found in `resolv.conf`, each a run of digits and dots; it is
      empty when there are none. */
  lemma DnsServersSplit(h: Host)
    requires (Os(h) == Darwin || Os(h) == Linux) && h.resolvConf.Output?
    ensures DnsServers(h).Str?
    ensures var items := Nameservers(h.resolvConf.text);
            (items == [] ==> DnsServers(h).s == "") &&
            (items != [] ==> Split(DnsServers(h).s, ", ") == items) &&
            (forall k :: 0 <= k < |items| ==> IsAddressRun(items[k]))
  {
    NameserversAreAddresses(h.resolvConf.text);
  }

  /** A `resolv.conf` shows the addresses of its `nameserver` entries in file
      order, joined by ", ", whatever other lines it holds. */
  lemma DnsOfResolvConf(h: Host, lines: seq<ConfLine>)
    requires Os(h) == Darwin || Os(h) == Linux
    requires forall k :: 0 <= k < |lines| ==> WellFormedLine(lines[k])
    requires h.resolvConf == Output(ResolvConf(lines))
    ensures DnsServers(h) == Str(Join(Addresses(lines), ", "))
  {
    DnsServersOfText(h);
    DnsListOfResolvConf(lines);
  }

  /** On Darwin and Linux the DNS value is the list read from `resolv.conf`. */
  lemma DnsServersOfText(h: Host)
    requires (Os(h) == Darwin || Os(h) == Linux) && h.resolvConf.Output?
    ensures DnsServers(h) == Str(DnsList(h.resolvConf.text))
  {
  }

  /** The ISP value is "Public IP: " and the first quad the pattern finds after
      "Address: ", whatever text precedes it without a match. */
  lemma IspOfAnswer(h: Host, pre: string, gs: seq<string>, post: string)
    requires |gs| == 4 && forall k :: 0 <= k < 4 ==> IsDigitRun(gs[k])
    requires post == [] || !IsDigit(post[0])
    requires forall i :: 0 <= i < |pre| ==> !AddressHere(pre[i..] + (AddressLabel + (Join(gs, ".") + post)))
    requires h.nslookup == Output(pre + (AddressLabel + (Join(gs, ".") + post)))
    ensures IspInfo(h) == Str(PublicIpPrefix + Join(gs, "."))
  {
    SearchAddressOf(pre, gs, post);
  }

  /** An answer without the "Address: " label leaves `get_isp_info` falling off
      its `try`: the value is `None`, not an error. */
  lemma IspWithoutAddress(h: Host)
    requires h.nslookup.Output? && !Contains(h.nslookup.text, AddressLabel)
    ensures IspInfo(h) == NoneValue
  {
    NoLabelNoAddress(h.nslookup.text);
  }

  /** When the pattern matches at no position of the answer, the probe falls
      off the end of its `try` and returns `None`; this covers an answer whose
      only `Address: ` label is followed by an IPv6 address. */
  lemma IspNoMatch(h: Host)
    requires h.nslookup.Output?
    requires forall i :: 0 <= i < |h.nslookup.text| ==> !AddressHere(h.nslookup.text[i..])
    ensures IspInfo(h) == NoneValue
  {
    var t := h.nslookup.text;
    forall i | 0 <= i < |t|
      ensures !AddressHere(t[i..] + "")
    {
      assert t[i..] + "" == t[i..];
    }
    SearchAddressSkips(t, "");
    assert t + "" == t;
  }

  /** On Darwin, a mask of eight hex digits after "0x" shows as four decimal
      groups, each in 0..255 without leading zeros, which re-encoded as two
      hex digits each give back the mask's digits (in lower case). */
  lemma DarwinMaskOfHexDigits(h: Host, word: string)
    requires Os(h) == Darwin && h.ifconfigEn0.Output?
    requires h.scrapers.netmaskWord(h.ifconfigEn0.text) == Some(word)
    requires |DropTwo(word)| == 8
    requires forall i :: 0 <= i < 8 ==> IsHexDigit(DropTwo(word)[i])
    ensures SubnetMask(h).Str?
    ensures var groups := Split(SubnetMask(h).s, ".");
            |groups| == 4 &&
            forall k :: 0 <= k < 4 ==>
              IsCanonicalDecimal(groups[k]) && DecimalValue(groups[k]) < 256
    ensures var groups := Split(SubnetMask(h).s, ".");
            HexPair(DecimalValue(groups[0])) + HexPair(DecimalValue(groups[1]))
            + HexPair(DecimalValue(groups[2])) + HexPair(DecimalValue(groups[3]))
            == LowerAll(DropTwo(word))
  {
    NetmaskOfHexDigits(word);
  }

  /** On Darwin, a word-character mask with a non-hex digit makes `int(..., 16)`
      raise, and the probe shows an error value. */
  lemma DarwinMaskNonHex(h: Host, word: string, i: nat)
    requires Os(h) == Darwin && h.ifconfigEn0.Output?
    requires h.scrapers.netmaskWord(h.ifconfigEn0.text) == Some(word)
    requires |DropTwo(word)| == 8
    requires forall j :: 0 <= j < 8 ==> IsWordChar(DropTwo(word)[j])
    requires i < 8 && !IsHexDigit(DropTwo(word)[i])
    ensures SubnetMask(h) == Error
  {
    NonHexWordMaskRaises(word, i);
  }

  /** On Darwin, a mask whose digits are not eight characters long shows the
      text "Invalid netmask" rather than an error. */
  lemma DarwinMaskWrongLength(h: Host, word: string)
    requires Os(h) == Darwin && h.ifconfigEn0.Output?
    requires h.scrapers.netmaskWord(h.ifconfigEn0.text) == Some(word)
    requires |DropTwo(word)| != 8
    ensures SubnetMask(h) == Str(InvalidNetmask)
  {
    InvalidNetmaskIffLength(word);
  }
}
