# RouterSpy network snapshot, modelled in Dafny

RouterSpy (`sntrs.py`) is a small Tkinter window that shows one snapshot of the
local machine's network configuration. `get_network_data` fills a dictionary
with eleven rows: hostname, IP address, subnet mask, default gateway, DNS
servers, ISP (public IP), MAC address, DHCP status, OS type, OS version and
network interfaces. Each row comes from a probe (`get_ip_address`,
`get_subnet_mask`, ...). A probe branches on `platform.system()`, runs one shell
command, and scrapes the command's text output.

This project models that core:

- `outcomes.dfy`: the `Option` and `Result` values shared by the other modules
  (`Raised` stands for a Python exception).
- `pystr.dfy`: the Python string operations the probes rely on:
  - `str.isspace`, `strip()`, `split()` with no separator, `sep.join(...)`;
  - `split(sep)`, which serves as the inverse that the joins are checked
    against;
  - the `in` substring test.
- `pyint.dfy`: decimal and hexadecimal digits, `int(s, 16)` on one digit, and
  `str(n)` for integers.
- `netmask.dfy`: `convert_netmask`.
  - `NetmaskText` is the function that specifies it.
  - `ConvertNetmask` is the loop of the source, proved equal to that function.
  - `ParseHex2` covers what `int(chunk, 16)` accepts on a two-character slice:
    two hex digits, one hex digit padded by whitespace, or a sign before one
    digit. `IntSpace` is the padding `int()` strips. That is every `str.isspace`
    character except the separators U+001C..U+001F, which `int()` rejects.
- `scanners.dfy`: matchers for the two regular expressions whose captures the
  probes post-process:
  - `nameserver\s+([\d\.]+)`, with `re.findall`;
  - `Address: (\d+\.\d+\.\d+\.\d+)`, with `re.search`.
  - A `resolv.conf` is modelled as a list of lines. Each line is a `nameserver`
    entry or another line that lacks the keyword. Reading such a file gives the
    entries' addresses in file order, whether or not its last line ends in a
    newline. The pattern is not anchored, so a commented-out
    `# nameserver a` line is reported as well.
- `probes.dfy`: every `get_*` probe and `run_ipconfig_command`, as functions of
  a `Host` value.
  - A `Host` holds what the machine would report: the platform strings, the
    hostname, and the captured output of each shell command run. A command
    that failed is recorded as `Failed`.
  - Each call site that runs a command has its own capture, because a command
    run twice may answer differently, or fail only once. `ipconfig /all` is
    run by `get_dhcp_status` (sntrs.py:137), by `get_network_interfaces`
    (sntrs.py:161) and by `run_ipconfig_command` (sntrs.py:173) once per
    keyword. `ifconfig` is run by `get_subnet_mask` (sntrs.py:80), by
    `get_mac_address` (sntrs.py:128) and by `get_network_interfaces`
    (sntrs.py:164).
  - A probe's value is a string, Python's `None`, or `Error`. `Error` stands for
    the `str(e)` text of a caught exception.
- `collector.dfy`: `get_network_data`, modelled as a method. It fills an
  insertion-ordered dictionary one key at a time, and is proved to produce the
  eleven keys in the fixed order with each probe's value.

Three behaviours of the code deserve a note:

- On an unsupported OS, most probes fall off the end of their `if` chain and
  return `None`. Only `run_ipconfig_command` returns "Command not supported on
  this OS".
- On an unsupported OS, `get_network_interfaces` joins a variable it never
  bound. The resulting `UnboundLocalError` is caught, so the row shows an
  error text.
- `get_isp_info` reports the quad at the first position of the answer where
  the pattern `Address: (\d+\.\d+\.\d+\.\d+)` matches. An `Address: ` label
  that no quad follows is skipped. When the pattern matches nowhere, the probe
  returns `None`, not an error.

## Model

| member | source | states |
|---|---|---|
| PyStr.ContainsIff | sntrs.py:138-144 | The `in` test holds exactly when the marker occurs at some index of the output. |
| PyStr.Strip | sntrs.py:63 | The stripped text neither begins nor ends with whitespace and is no longer than the input. |
| PyStr.StripFrame | sntrs.py:63 | The stripped text is a contiguous slice of the input, and only whitespace lies outside it on both sides. |
| PyStr.TrimLeft | sntrs.py:63 | Dropping leading whitespace leaves a suffix, removes only whitespace, and stops at a non-space character. |
| PyStr.TrimRight | sntrs.py:63 | Dropping trailing whitespace leaves a prefix, removes only whitespace, and stops at a non-space character. |
| PyStr.TokensAreTokens | sntrs.py:67 | Every item `split()` returns is non-empty and free of whitespace. |
| PyStr.TokensOfStrip | sntrs.py:66-67 | `strip().split()` gives the same tokens as `split()` on the raw output. |
| PyStr.TokensOfSpace | sntrs.py:101 | A text of whitespace only splits into no tokens. |
| PyStr.TokensTrailingSpace | sntrs.py:104-105 | Trailing whitespace, such as the newline `grep` leaves, adds no token. |
| PyStr.TokensOfFieldsCore | sntrs.py:100-105 | Tokens separated by whitespace runs of any length, and followed by any whitespace, split back into exactly those tokens, in order. |
| PyStr.TokensOfFields | sntrs.py:100-105 | The same holds when whitespace also precedes the first token, as in padded `netstat` columns. |
| PyStr.SplitJoin | sntrs.py:117 | Items joined by a separator whose first character occurs in none of them split back into the same items. |
| PyStr.SplitStep | sntrs.py:117 | Splitting `x + sep + rest`, where `x` holds no separator character, gives `x` and then the pieces of `rest`. |
| PyStr.FindFirstSeparator | sntrs.py:117 | The first separator in `x + sep + rest` is the one right after `x`, when `x` holds no separator character. |
| PyInt.HexValue | sntrs.py:92 | A hex digit's value is below 16 and agrees with the decimal value on decimal digits. |
| PyInt.HexDigitRoundTrip | sntrs.py:92 | Writing a hex digit's value back as a digit gives the digit in lower case. |
| PyInt.NatToDecimalFacts | sntrs.py:92 | `str(n)` of a natural number is a canonical decimal (no leading zero) whose value is `n`. |
| PyInt.IntToDecimalFacts | sntrs.py:92 | `str(n)` is the canonical decimal of `n`, with a leading '-' exactly when `n` is negative. |
| PyInt.DecimalRoundTrip | sntrs.py:92 | A canonical decimal is the `str` of its own value. |
| PyInt.DecimalPositive | sntrs.py:92 | A canonical decimal that does not start with '0' has a positive value. |
| Netmask.DropTwo | sntrs.py:87 | `hex_mask[2:]` is the text after the first two characters, or empty when there are fewer. |
| Netmask.ParseHex2 | sntrs.py:92 | `int(chunk, 16)` accepts a slice exactly when it is two hex digits, one hex digit padded on either side, or a sign before one hex digit. Two hex digits give 16 times the first plus the second, and any accepted value lies in -15..255. |
| Netmask.SeparatorIsNotPadding | sntrs.py:86-93 | A tab before a digit is stripped, but U+001C is not: that slice is rejected, and the conversion raises. |
| Netmask.ParseHex2OfWord | sntrs.py:77-92 | On a slice of `\w` characters, `int(_, 16)` succeeds exactly when both characters are hex digits. |
| Netmask.Octets | sntrs.py:91-92 | The loop's four groups are `str(int(...))` of the four two-character slices, in slice order. |
| Netmask.GroupsSoFarElements | sntrs.py:90-92 | After the loop has appended `n` groups, group `k` is the text of slice `k` for every `k < n`. |
| Netmask.GroupsExtend | sntrs.py:91-92 | Appending the next slice's text keeps the loop invariant. |
| Netmask.RaisesOnBadOctet | sntrs.py:92 | A slice that `int(_, 16)` rejects makes the conversion raise. |
| Netmask.AllGroups | sntrs.py:93 | Once all four groups are appended, their dotted join is the specified result. |
| Netmask.ConvertNetmask | sntrs.py:86-93 | The loop returns the specified result: "Invalid netmask", the raised error, or the four groups joined by dots. |
| Netmask.InvalidNetmaskIffLength | sntrs.py:88-89 | The result is the text "Invalid netmask" exactly when the mask has not exactly eight characters after its first two. |
| Netmask.OctetOfHexDigits | sntrs.py:92 | A slice of two hex digits gives a canonical decimal below 256, whose two-digit hex rendering is the slice in lower case. |
| Netmask.OctetsOfHexDigits | sntrs.py:91-92 | Eight hex digits give four such groups. |
| Netmask.SplitOctets | sntrs.py:93 | Splitting the result at "." gives back the four groups. |
| Netmask.NetmaskOfHexDigits | sntrs.py:86-93 | Eight hex digits after the prefix give four canonical decimals, each below 256. Re-encoded as two hex digits each, they give back the mask's digits in lower case. |
| Netmask.NonHexWordMaskRaises | sntrs.py:86-93 | An eight-character mask of word characters with one non-hex character raises. |
| Netmask.SlashTwentyFourExample | sntrs.py:86-93 | "0xffffff00" converts to "255.255.255.0". |
| Netmask.ShortMaskExample | sntrs.py:88-89 | "0xfff" converts to "Invalid netmask". |
| Netmask.SignedSlicesExample | sntrs.py:91-92 | "0x-f+f+f+f" converts to "-15.15.15.15", because `int` accepts a sign before one digit. |
| Netmask.FullAndEmptyBytes | sntrs.py:92 | "ff" reads as 255 and "00" as 0; these write back as "255" and "0". |
| Netmask.SignedDigits | sntrs.py:92 | "-f" reads as -15 and "+f" as 15; these write back as "-15" and "15". |
| Scanners.SpaceRun | sntrs.py:116 | `\s+` consumes exactly the maximal run of whitespace at the start. |
| Scanners.AddressRun | sntrs.py:116 | `[\d\.]+` consumes exactly the maximal run of digits and dots at the start. |
| Scanners.DigitRun | sntrs.py:151 | `\d+` consumes exactly the maximal run of digits at the start. |
| Scanners.NameserverHere | sntrs.py:116 | A match at the start begins with the keyword, captures a run of digits and dots, and ends within the text, after that capture. |
| Scanners.NameserversAreAddresses | sntrs.py:116 | Every item `re.findall` returns is a non-empty run of digits and dots. |
| Scanners.NoKeywordNoServers | sntrs.py:116 | Text without "nameserver" yields no items. |
| Scanners.NameserversStep | sntrs.py:116 | Where the pattern matches, `re.findall` reports the capture and resumes right after the match. |
| Scanners.NameserversSkip | sntrs.py:116 | Where the pattern does not match, the scan moves on by one character. |
| Scanners.NoKeywordAtLineStart | sntrs.py:116 | A match cannot start in a line that does not itself begin with "nameserver", since the keyword holds no newline. |
| Scanners.SkipLine | sntrs.py:116 | A line without "nameserver", with its newline, contributes nothing to the scan. |
| Scanners.SpaceRunOf | sntrs.py:116 | `\s+` takes the whole whitespace run when a non-space or the end follows it. |
| Scanners.AddressRunOf | sntrs.py:116 | `[\d\.]+` takes the whole address when a non-address character or the end follows it. |
| Scanners.NameserverHereAt | sntrs.py:116 | After the keyword, a whitespace run and an address run, the match captures that address and ends after it. |
| Scanners.MatchAtKeyword | sntrs.py:116 | "nameserver", whitespace and an address that a non-address character follows: the match captures exactly that address. |
| Scanners.NameserversAfterMatch | sntrs.py:116 | Such a text yields the address, then whatever the rest yields. |
| Scanners.EntryRead | sntrs.py:116 | A `nameserver` entry line contributes its address, and a trailing comment contributes nothing. |
| Scanners.CommentedEntryRead | sntrs.py:116 | A commented-out entry `# nameserver a` still contributes `a`, since the pattern is not anchored. |
| Scanners.LineThen | sntrs.py:116 | A line of either kind, with its newline, contributes its own address if it has one, and the scan continues after it. |
| Scanners.NameserversOfLinesThen | sntrs.py:115-116 | Newline-ended lines yield exactly the addresses of their entries in file order, followed by whatever comes after them. |
| Scanners.NameserversOfResolvConf | sntrs.py:115-116 | A resolv.conf whose every line ends in a newline yields exactly its entries' addresses, in file order, whatever other lines surround them. |
| Scanners.LastLineRead | sntrs.py:116 | A last line without a newline contributes its address if it is an entry, and nothing otherwise. |
| Scanners.AddressesAppend | sntrs.py:115-116 | The addresses of two runs of lines are the first run's followed by the second's. |
| Scanners.NameserversOfUnterminatedResolvConf | sntrs.py:115-116 | A resolv.conf whose last line lacks the newline yields the same addresses, in file order. |
| Scanners.AddressesAreRuns | sntrs.py:116 | Every address of a well-formed entry is a non-empty run of digits and dots. |
| Scanners.DnsList | sntrs.py:116-117 | The DNS text splits at ", " back into the items found; it is empty when there are none. |
| Scanners.DnsListOfResolvConf | sntrs.py:115-117 | The DNS text of a resolv.conf is its entries' addresses joined by ", ", whatever other lines it holds. |
| Scanners.DottedGroupsShape | sntrs.py:151 | The groups read are `count` digit runs that, joined by dots, begin the text. |
| Scanners.QuadAtLabel | sntrs.py:151 | A match at the label captures a dotted quad that follows the label in the text. |
| Scanners.SearchAddressFound | sntrs.py:151-153 | What `re.search` captures is a dotted quad, found right after "Address: " in the text. |
| Scanners.NoLabelNoAddress | sntrs.py:151-152 | Text without "Address: " has no match. |
| Scanners.DigitRunOf | sntrs.py:151 | A digit run followed by a non-digit or by the end is read whole. |
| Scanners.DottedGroupsOfJoin | sntrs.py:151 | Digit groups joined by dots, followed by a non-digit or by the end, are read back group by group. |
| Scanners.SearchAddressSkips | sntrs.py:151 | A prefix with no match anywhere does not change the result of the search. |
| Scanners.SearchAddressAtLabel | sntrs.py:151 | "Address: " followed by a quad is matched, and the quad is captured. |
| Scanners.SearchAddressOf | sntrs.py:151-153 | The search captures the quad after the first position where the pattern matches. |
| Probes.FamilyOf | sntrs.py:60-65 | Each branch is taken exactly when `platform.system()` returns "Windows", "Darwin" or "Linux". |
| Probes.TokenAt | sntrs.py:101 | `split()[k]` yields a token exactly when there are more than `k` tokens, and an error otherwise. |
| Probes.Group | sntrs.py:77 | `.group(1)` yields the captured text on a match and raises (an error value) on `None`. |
| Probes.RunIpconfig | sntrs.py:170-179 | On Windows, the keyword's matches joined by ", ", or an error when the command fails. On other systems, "Command not supported on this OS". |
| Probes.IpAddress | sntrs.py:58-69 | The value is `None` exactly on an unsupported OS. |
| Probes.DarwinMask | sntrs.py:75-78 | The Darwin branch never yields `None`. |
| Probes.SubnetMask | sntrs.py:71-84 | The value is `None` exactly on an unsupported OS, and on Windows it is the `ipconfig` lookup for "Subnet Mask". |
| Probes.DefaultGateway | sntrs.py:95-108 | The value is `None` exactly on an unsupported OS, and on Windows it is the `ipconfig` lookup for "Default Gateway". |
| Probes.DnsServers | sntrs.py:110-119 | The value is `None` exactly on an unsupported OS, and on Windows it is the `ipconfig` lookup for "DNS Servers". |
| Probes.MacAddress | sntrs.py:121-132 | The value is `None` exactly on an unsupported OS. |
| Probes.DhcpStatus | sntrs.py:134-146 | The value is `None` exactly on an unsupported OS. |
| Probes.IspInfo | sntrs.py:148-156 | An error exactly when `nslookup` fails. Any string result is "Public IP: " followed by a dotted quad. |
| Probes.NetworkInterfaces | sntrs.py:158-168 | Never `None`; an error on an unsupported OS, where `interfaces` is unbound. |
| Probes.DhcpAnswer | sntrs.py:134-146 | With output, the answer is "Yes" or "No", and "Yes" exactly when that OS's marker occurs in the output. |
| Probes.DhcpFailure | sntrs.py:134-146 | A failed command gives an error value. |
| Probes.TokenAtOfFields | sntrs.py:100-105 | Picking token `k` of a line of whitespace-separated fields, however padded, returns field `k`, or an error when there are at most `k` fields. |
| Probes.DarwinGateway | sntrs.py:99-102 | On Darwin the gateway is the 2nd field of the route line, however its columns are padded, or an error when the line has fewer fields. |
| Probes.LinuxGateway | sntrs.py:103-106 | On Linux the gateway is the 3rd field of the route line, however its columns are padded, or an error when the line has fewer fields. |
| Probes.LinuxIpIsFirstToken | sntrs.py:65-67 | On Linux the IP address is the first whitespace token of the raw `hostname -I` output. |
| Probes.DnsServersSplit | sntrs.py:114-117 | On Darwin and Linux, the DNS value splits at ", " into the resolv.conf addresses, each a run of digits and dots. The value is empty when there are none. |
| Probes.DnsServersOfText | sntrs.py:114-117 | On Darwin and Linux the DNS value is the list read from resolv.conf. |
| Probes.DnsOfResolvConf | sntrs.py:114-117 | On Darwin and Linux, a resolv.conf of `nameserver` entries and other lines shows the entries' addresses in file order, joined by ", ". |
| Probes.IspOfAnswer | sntrs.py:150-154 | When the first match of the pattern is a quad after "Address: ", the ISP value is "Public IP: " followed by that quad. |
| Probes.IspNoMatch | sntrs.py:150-156 | When the pattern matches at no position of the answer, the probe returns `None`. This covers an `Address: ` label followed by an IPv6 address. |
| Probes.IspWithoutAddress | sntrs.py:150-156 | An answer without "Address: " makes the probe return `None`, not an error. |
| Probes.DarwinMaskOfHexDigits | sntrs.py:75-78 | A mask of eight hex digits shows as four canonical decimals below 256. Re-encoded in hex, they give back the mask's digits. |
| Probes.DarwinMaskNonHex | sntrs.py:75-78 | A word-character mask with a non-hex digit shows an error value. |
| Probes.DarwinMaskWrongLength | sntrs.py:75-78 | A mask whose digits are not eight characters long shows "Invalid netmask". |
| Collector.NameInjective | sntrs.py:44-54 | No two rows share a key. |
| Collector.KeyNames | sntrs.py:39 | The key strings are listed in the dictionary's insertion order. |
| Collector.AssignValid | sntrs.py:44-54 | `d[k] = v` keeps the dictionary valid and stores `v` under `k`. Every other key keeps its value, and a new key is appended at the end of the order. |
| Collector.AssignNew | sntrs.py:44 | Assigning a key the dictionary lacks appends it. |
| Collector.AssignRows | sntrs.py:43-54 | The eleven assignments into `{}` list the rows in order, with the values given. |
| Collector.EveryRowListed | sntrs.py:43-54 | Every row is assigned. |
| Collector.RowsDistinct | sntrs.py:43-54 | No row is assigned twice. |
| Collector.RowsValid | sntrs.py:43-54 | The filled dictionary satisfies the invariant: each key is listed once, and the listed keys are exactly those holding a value. |
| Collector.RowNames | sntrs.py:44-54 | The keys are "Hostname", "IP Address", ..., "Network Interfaces", in that order. |
| Collector.GetNetworkData | sntrs.py:42-56 | Whatever the probes return, the snapshot has the same eleven keys in the same order, each holding its probe's value, and the dictionary is valid. |

## Left out

- The Tkinter window and `refresh_data`, which only display the dictionary; `__main__`.
- The system calls:
  - `subprocess.check_output` with `.decode()`, `socket.gethostname`, `socket.gethostbyname` and `platform.system`/`version` are not run.
  - Their results are fields of `Host`.
  - A command that fails, or whose output does not decode, is `Failed`.
  - The `nslookup` network query is one of these captured outputs.
- Probes: the text of a caught exception (`str(e)`) is one opaque `Error` value.
- Probes: the regular expressions that are not post-processed are functions in the `Scrapers` record of the host, not matchers:
  - `rf'{keyword}.*?:\s*([\d\.]+)'` (lazy and interpolated);
  - `Adapter (.*):` (greedy with backtracking);
  - `^(\w+): flags` (multiline);
  - `netmask (\w+)`, `Mask:([\d\.]+)`, `([A-F0-9-]{17})` and `ether ([\w:]+)`.
  
  The model says only what the probes do with their results.
- `platform.system()` is called up to three times per probe. The model assumes every call gives the same answer.
- `\d`, `\w` and the digits `int()` accepts are read in their ASCII sense; Python also accepts other Unicode digits and letters there. `str.isspace`, and the padding `int()` strips, are modelled with their full character sets.
- `socket.gethostname()` on line 44 sits outside any `try`. A failure there would propagate out of `get_network_data`; the model takes the hostname as given.
- Collector.Dict: dictionary keys are the `Property` enumeration, and `Name` gives each one's string. String keys other than the eleven never occur.
- Scanners.NameserversOfResolvConf: the lemma covers files whose lines are either well-formed entries or lines without "nameserver". A line where the keyword appears otherwise, such as `nameservers 1.1.1.1` or two entries on one line, falls outside it. `Scanners.Nameservers` itself reads any text.
- Probes.IspOfAnswer: the leftmost-match result is stated for answers where no earlier position matches the pattern. `Scanners.SearchAddressSkips` states how the search skips such a prefix.
