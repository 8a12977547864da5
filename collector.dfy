/** `RouterSpyApp.get_network_data`: the snapshot dictionary the window shows,
    filled key by key from the probes. */
module Collector {
  import opened Outcomes
  import opened Probes

  /** The eleven rows of the snapshot; `Name` gives each one's dictionary key. */
  datatype Property =
    | Hostname | IpAddressRow | SubnetMaskRow | DefaultGatewayRow | DnsServersRow
    | IspRow | MacAddressRow | DhcpEnabledRow | OsType | OsVersion
    | NetworkInterfacesRow

  /** The dictionary key of each row. */
  function Name(p: Property): string
  {
    match p
    case Hostname => "Hostname"
    case IpAddressRow => "IP Address"
    case SubnetMaskRow => "Subnet Mask"
    case DefaultGatewayRow => "Default Gateway"
    case DnsServersRow => "DNS Servers"
    case IspRow => "ISP"
    case MacAddressRow => "MAC Address"
    case DhcpEnabledRow => "DHCP Enabled"
    case OsType => "OS Type"
    case OsVersion => "OS Version"
    case NetworkInterfacesRow => "Network Interfaces"
  }

  /** No two rows share a key string. */
  lemma NameInjective(p: Property, q: Property)
    ensures Name(p) == Name(q) ==> p == q
  {
  }

  /** A Python `dict`: the keys in insertion order, which `dict.items()`
      reports, and the value stored under each. */
  datatype Dict = Dict(keys: seq<Property>, values: map<Property, Value>)

  /** The dictionary's invariant: each key is listed once, and the listed keys
      are exactly the ones that hold a value. */
  predicate Valid(d: Dict)
  {
    (forall i, j :: 0 <= i < j < |d.keys| ==> d.keys[i] != d.keys[j])
    && (forall k :: k in d.values <==> k in d.keys)
  }

  /** The key strings in the order `dict.items()` lists them. */
  function KeyNames(d: Dict): (ns: seq<string>)
    ensures |ns| == |d.keys| && forall i :: 0 <= i < |ns| ==> ns[i] == Name(d.keys[i])
  {
    seq(|d.keys|, i requires 0 <= i < |d.keys| => Name(d.keys[i]))
  }

  /** `{}` */
  const EmptyDict: Dict := Dict([], map[])

  /** `d[k] = v`: an existing key keeps its place and gets the new value; a new
      key goes at the end. */
  function Assign(d: Dict, k: Property, v: Value): Dict
  {
    if k in d.values then Dict(d.keys, d.values[k := v])
    else Dict(d.keys + [k], d.values[k := v])
  }

  /** Assignment keeps the dictionary's invariant, stores `v` under `k`, leaves
      every other key's value alone, and only ever appends to the key order. */
  lemma AssignValid(d: Dict, k: Property, v: Value)
    requires Valid(d)
    ensures Valid(Assign(d, k, v))
    ensures Assign(d, k, v).values[k] == v
    ensures forall j :: j != k && j in d.values ==>
              j in Assign(d, k, v).values && Assign(d, k, v).values[j] == d.values[j]
    ensures k in d.keys ==> Assign(d, k, v).keys == d.keys
    ensures k !in d.keys ==> Assign(d, k, v).keys == d.keys + [k]
  {
    var r := Assign(d, k, v);
    if k !in d.values {
      forall i, j | 0 <= i < j < |r.keys| ensures r.keys[i] != r.keys[j] {
        if j == |d.keys| {
          assert r.keys[i] == d.keys[i];
        }
      }
    }
  }

  /** Assigning a key the dictionary does not hold yet appends it. */
  lemma AssignNew(d: Dict, k: Property, v: Value)
    requires k !in d.values
    ensures Assign(d, k, v) == Dict(d.keys + [k], d.values[k := v])
  {
  }

  /** The rows in the order `get_network_data` assigns them. */
  const Rows: seq<Property> := [
    Hostname, IpAddressRow, SubnetMaskRow, DefaultGatewayRow, DnsServersRow,
    IspRow, MacAddressRow, DhcpEnabledRow, OsType, OsVersion, NetworkInterfacesRow]

  /** The value of each row of the snapshot: the probe that fills it, or the
      platform string it shows. */
  function Values(h: Host): map<Property, Value>
  {
    map[Hostname := Str(h.hostname), IpAddressRow := IpAddress(h),
        SubnetMaskRow := SubnetMask(h), DefaultGatewayRow := DefaultGateway(h),
        DnsServersRow := DnsServers(h), IspRow := IspInfo(h), MacAddressRow := MacAddress(h),
        DhcpEnabledRow := DhcpStatus(h), OsType := Str(h.system), OsVersion := Str(h.version),
        NetworkInterfacesRow := NetworkInterfaces(h)]
  }

  /** The first six rows, appended one at a time to the empty key list. */
  lemma FirstRowsAppended()
    ensures [] + [Hostname] + [IpAddressRow] + [SubnetMaskRow] + [DefaultGatewayRow]
            + [DnsServersRow] + [IspRow] == Rows[..6]
  {
  }

  /** The remaining five rows, appended one at a time after the first six. */
  lemma LastRowsAppended()
    ensures Rows[..6] + [MacAddressRow] + [DhcpEnabledRow] + [OsType] + [OsVersion]
            + [NetworkInterfacesRow] == Rows
  {
  }

  /** The first six assignments into `{}`. */
  lemma AssignFirstRows(
      v0: Value, v1: Value, v2: Value, v3: Value, v4: Value, v5: Value)
    ensures Assign(Assign(Assign(Assign(Assign(Assign(EmptyDict, Hostname, v0), IpAddressRow, v1), SubnetMaskRow, v2), DefaultGatewayRow, v3), DnsServersRow, v4), IspRow, v5)
            == Dict(Rows[..6], map[Hostname := v0, IpAddressRow := v1, SubnetMaskRow := v2, DefaultGatewayRow := v3, DnsServersRow := v4, IspRow := v5])
  {
    var d := EmptyDict;
    AssignNew(d, Hostname, v0);
    d := Assign(d, Hostname, v0);
    AssignNew(d, IpAddressRow, v1);
    d := Assign(d, IpAddressRow, v1);
    AssignNew(d, SubnetMaskRow, v2);
    d := Assign(d, SubnetMaskRow, v2);
    AssignNew(d, DefaultGatewayRow, v3);
    d := Assign(d, DefaultGatewayRow, v3);
    AssignNew(d, DnsServersRow, v4);
    d := Assign(d, DnsServersRow, v4);
    AssignNew(d, IspRow, v5);
    d := Assign(d, IspRow, v5);
    FirstRowsAppended();
  }

  /** Assigning the eleven rows, in order, into `{}` lists them in that order
      with the values given, whatever those are. */
  lemma AssignRows(
      v0: Value, v1: Value, v2: Value, v3: Value, v4: Value, v5: Value,
      v6: Value, v7: Value, v8: Value, v9: Value, v10: Value)
    ensures Assign(Assign(Assign(Assign(Assign(Assign(Assign(Assign(Assign(Assign(Assign(EmptyDict, Hostname, v0), IpAddressRow, v1), SubnetMaskRow, v2), DefaultGatewayRow, v3), DnsServersRow, v4), IspRow, v5), MacAddressRow, v6), DhcpEnabledRow, v7), OsType, v8), OsVersion, v9), NetworkInterfacesRow, v10)
            == Dict(Rows, map[Hostname := v0, IpAddressRow := v1, SubnetMaskRow := v2, DefaultGatewayRow := v3, DnsServersRow := v4, IspRow := v5, MacAddressRow := v6, DhcpEnabledRow := v7, OsType := v8, OsVersion := v9, NetworkInterfacesRow := v10])
  {
    AssignFirstRows(v0, v1, v2, v3, v4, v5);
    AssignLastRows(map[Hostname := v0, IpAddressRow := v1, SubnetMaskRow := v2, DefaultGatewayRow := v3, DnsServersRow := v4, IspRow := v5], v6, v7, v8, v9, v10);
  }

  /** The last five assignments, after the first six. */
  lemma AssignLastRows(
      m: map<Property, Value>, v6: Value, v7: Value, v8: Value, v9: Value, v10: Value)
    requires MacAddressRow !in m && DhcpEnabledRow !in m && OsType !in m
    requires OsVersion !in m && NetworkInterfacesRow !in m
    ensures Assign(Assign(Assign(Assign(Assign(Dict(Rows[..6], m), MacAddressRow, v6), DhcpEnabledRow, v7), OsType, v8), OsVersion, v9), NetworkInterfacesRow, v10)
            == Dict(Rows, m[MacAddressRow := v6][DhcpEnabledRow := v7][OsType := v8][OsVersion := v9][NetworkInterfacesRow := v10])
  {
    var d := Dict(Rows[..6], m);
    AssignNew(d, MacAddressRow, v6);
    d := Assign(d, MacAddressRow, v6);
    AssignNew(d, DhcpEnabledRow, v7);
    d := Assign(d, DhcpEnabledRow, v7);
    AssignNew(d, OsType, v8);
    d := Assign(d, OsType, v8);
    AssignNew(d, OsVersion, v9);
    d := Assign(d, OsVersion, v9);
    AssignNew(d, NetworkInterfacesRow, v10);
    d := Assign(d, NetworkInterfacesRow, v10);
    LastRowsAppended();
  }

  /** Every row is listed. */
  lemma EveryRowListed()
    ensures forall p: Property :: p in Rows
  {
    forall p: Property ensures p in Rows {
      match p
      case Hostname => assert Rows[0] == p;
      case IpAddressRow => assert Rows[1] == p;
      case SubnetMaskRow => assert Rows[2] == p;
      case DefaultGatewayRow => assert Rows[3] == p;
      case DnsServersRow => assert Rows[4] == p;
      case IspRow => assert Rows[5] == p;
      case MacAddressRow => assert Rows[6] == p;
      case DhcpEnabledRow => assert Rows[7] == p;
      case OsType => assert Rows[8] == p;
      case OsVersion => assert Rows[9] == p;
      case NetworkInterfacesRow => assert Rows[10] == p;
    }
  }

  /** No row is listed twice. */
  lemma RowsDistinct()
    ensures forall i, j :: 0 <= i < j < |Rows| ==> Rows[i] != Rows[j]
  {
  }

  /** A dictionary holding the eleven rows, listed once each, satisfies the
      invariant. */
  lemma RowsValid(
      v0: Value, v1: Value, v2: Value, v3: Value, v4: Value, v5: Value,
      v6: Value, v7: Value, v8: Value, v9: Value, v10: Value)
    ensures Valid(Dict(Rows, map[Hostname := v0, IpAddressRow := v1, SubnetMaskRow := v2, DefaultGatewayRow := v3, DnsServersRow := v4, IspRow := v5, MacAddressRow := v6, DhcpEnabledRow := v7, OsType := v8, OsVersion := v9, NetworkInterfacesRow := v10]))
  {
    RowsDistinct();
    EveryRowListed();
  }

  /** The key strings of the rows, in order. */
  lemma RowNames(d: Dict)
    requires d.keys == Rows
    ensures KeyNames(d) == ["Hostname", "IP Address", "Subnet Mask", "Default Gateway",
                            "DNS Servers", "ISP", "MAC Address", "DHCP Enabled",
                            "OS Type", "OS Version", "Network Interfaces"]
  {
  }

  /** `get_network_data`: starts from an empty dict and assigns the eleven keys
      one after another.  Whatever the probes return, the keys are the same
      eleven in the same order, and each holds its probe's value. */
  method GetNetworkData(h: Host) returns (data: Dict)
    ensures KeyNames(data) == ["Hostname", "IP Address", "Subnet Mask", "Default Gateway",
                               "DNS Servers", "ISP", "MAC Address", "DHCP Enabled",
                               "OS Type", "OS Version", "Network Interfaces"]
    ensures data.keys == Rows && data.values == Values(h)
    ensures Valid(data)
  {
    data := EmptyDict;
    data := Assign(data, Hostname, Str(h.hostname));
    data := Assign(data, IpAddressRow, IpAddress(h));
    data := Assign(data, SubnetMaskRow, SubnetMask(h));
    data := Assign(data, DefaultGatewayRow, DefaultGateway(h));
    data := Assign(data, DnsServersRow, DnsServers(h));
    data := Assign(data, IspRow, IspInfo(h));
    data := Assign(data, MacAddressRow, MacAddress(h));
    data := Assign(data, DhcpEnabledRow, DhcpStatus(h));
    data := Assign(data, OsType, Str(h.system));
    data := Assign(data, OsVersion, Str(h.version));
    data := Assign(data, NetworkInterfacesRow, NetworkInterfaces(h));
    AssignRows(Str(h.hostname), IpAddress(h), SubnetMask(h), DefaultGateway(h), DnsServers(h), IspInfo(h), MacAddress(h), DhcpStatus(h), Str(h.system), Str(h.version), NetworkInterfaces(h));
    RowsValid(Str(h.hostname), IpAddress(h), SubnetMask(h), DefaultGateway(h), DnsServers(h), IspInfo(h), MacAddress(h), DhcpStatus(h), Str(h.system), Str(h.version), NetworkInterfaces(h));
    RowNames(data);
  }
}
