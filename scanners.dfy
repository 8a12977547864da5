/** Hand-written matchers for the two regular expressions whose captures the
    probes post-process: `re.findall(r'nameserver\s+([\d\.]+)', text)` over
    `/etc/resolv.conf` and `re.search(r'Address: (\d+\.\d+\.\d+\.\d+)', text)`
    over the `nslookup` answer.  Both patterns alternate between disjoint
    character classes, so the engine's greedy runs never backtrack into a
    shorter match and each run is the maximal one. */
module Scanners {
  import opened Outcomes
  import opened PyStr
  import opened PyInt

  /** A character of the class `[\d\.]`. */
  predicate IsAddressChar(c: char)
  {
    IsDigit(c) || c == '.'
  }

  /** A non-empty run of `[\d\.]` characters, the shape of every DNS item. */
  predicate IsAddressRun(s: string)
  {
    |s| > 0 && forall i :: 0 <= i < |s| ==> IsAddressChar(s[i])
  }

  /** Length of the leading run of `\s` characters. */
  function SpaceRun(s: string): (n: nat)
    ensures n <= |s| && (n == |s| || !IsSpace(s[n]))
    ensures forall i :: 0 <= i < n ==> IsSpace(s[i])
    decreases |s|
  {
    if |s| > 0 && IsSpace(s[0]) then 1 + SpaceRun(s[1..]) else 0
  }

  /** Length of the leading run of `[\d\.]` characters. */
  function AddressRun(s: string): (n: nat)
    ensures n <= |s| && (n == |s| || !IsAddressChar(s[n]))
    ensures forall i :: 0 <= i < n ==> IsAddressChar(s[i])
    decreases |s|
  {
    if |s| > 0 && IsAddressChar(s[0]) then 1 + AddressRun(s[1..]) else 0
  }

  /** Length of the leading run of `\d` characters. */
  function DigitRun(s: string): (n: nat)
    ensures n <= |s| && (n == |s| || !IsDigit(s[n]))
    ensures forall i :: 0 <= i < n ==> IsDigit(s[i])
    decreases |s|
  {
    if |s| > 0 && IsDigit(s[0]) then 1 + DigitRun(s[1..]) else 0
  }

  // ---------------------------------------------------------------------------
  // nameserver\s+([\d\.]+)

  /** The keyword is ten characters long; the matcher below writes
      `|NameserverKeyword|` as the offset 10. */
  const NameserverKeyword: string := "nameserver"

  /** A match of the nameserver pattern: the captured group and the index just
      past the whole match. */
  datatype Match = Match(group: string, end: nat)

  /** The nameserver pattern tried at the start of `s`: the keyword (10
      characters), then `\s+` of `w` characters, then `[\d\.]+` of `g`. */
  function NameserverHere(s: string): (m: Option<Match>)
    ensures m.Some? ==> StartsWith(s, NameserverKeyword)
    ensures m.Some? ==> IsAddressRun(m.value.group) && 0 < m.value.end <= |s|
    ensures m.Some? ==> |m.value.group| <= m.value.end &&
                        s[m.value.end - |m.value.group|..m.value.end] == m.value.group
  {
    if !StartsWith(s, NameserverKeyword) then None
    else
      var w := SpaceRun(s[10..]);
      var g := AddressRun(s[10 + w..]);
      if w == 0 || g == 0 then None
      else Some(Match(s[10 + w..10 + w + g], 10 + w + g))
  }

  /** `re.findall` of the nameserver pattern: matches are taken left to right,
      the scan resuming just after each match. */
  function Nameservers(s: string): seq<string>
    decreases |s|
  {
    if |s| == 0 then []
    else match NameserverHere(s)
      case Some(m) => [m.group] + Nameservers(s[m.end..])
      case None => Nameservers(s[1..])
  }

  /** Every item found is a run of digits and dots. */
  lemma {:induction false} NameserversAreAddresses(s: string)
    ensures forall k :: 0 <= k < |Nameservers(s)| ==> IsAddressRun(Nameservers(s)[k])
    decreases |s|
  {
    if |s| > 0 {
      match NameserverHere(s)
      case Some(m) =>
        NameserversAreAddresses(s[m.end..]);
        assert Nameservers(s) == [m.group] + Nameservers(s[m.end..]);
      case None =>
        NameserversAreAddresses(s[1..]);
    }
  }

  /** Without the keyword anywhere in the text there is nothing to report. */
  lemma {:induction false} NoKeywordNoServers(s: string)
    requires !Contains(s, NameserverKeyword)
    ensures Nameservers(s) == []
    decreases |s|
  {
    if |s| > 0 {
      assert NameserverHere(s) == None;
      NoKeywordNoServers(s[1..]);
    }
  }

  /** One line of a `resolv.conf`: a `nameserver` entry (the keyword, a run of
      whitespace, the address, then anything that neither extends the address
      nor holds the keyword, such as a comment), or any other line without the
      keyword (comments, `search`, `options`, blank lines). */
  datatype ConfLine =
    | NameserverEntry(gap: string, addr: string, after: string)
    | OtherLine(text: string)

  /** The text of a line, without its newline. */
  function LineText(l: ConfLine): string
  {
    match l
    case NameserverEntry(gap, addr, after) => NameserverKeyword + gap + addr + after
    case OtherLine(text) => text
  }

  /** The shape each kind of line is required to have. */
  predicate WellFormedLine(l: ConfLine)
  {
    match l
    case NameserverEntry(gap, addr, after) =>
      |gap| > 0 && AllSpace(gap) && IsAddressRun(addr)
      && (after == [] || !IsAddressChar(after[0]))
      && !Contains(after, NameserverKeyword)
    case OtherLine(text) => !Contains(text, NameserverKeyword)
  }

  /** The text of a `resolv.conf` made of `lines`, each ended by a newline. */
  function ResolvConf(lines: seq<ConfLine>): string
  {
    if lines == [] then "" else LineText(lines[0]) + "\n" + ResolvConf(lines[1..])
  }

  /** The address a line lists: one for a `nameserver` entry, none otherwise. */
  function LineAddresses(l: ConfLine): seq<string>
  {
    if l.NameserverEntry? then [l.addr] else []
  }

  /** The addresses of the `nameserver` entries, in file order. */
  function Addresses(lines: seq<ConfLine>): seq<string>
  {
    if lines == [] then [] else LineAddresses(lines[0]) + Addresses(lines[1..])
  }

  /** A bare newline is skipped. */
  lemma SkipNewline(rest: string)
    ensures Nameservers("\n" + rest) == Nameservers(rest)
  {
    var s := "\n" + rest;
    assert s[0] == '\n';
    assert !StartsWith(s, NameserverKeyword);
    assert s[1..] == rest;
  }

  /** One step of the scan at a position where the pattern does not match. */
  lemma NameserversSkip(s: string)
    requires |s| > 0 && NameserverHere(s) == None
    ensures Nameservers(s) == Nameservers(s[1..])
  {
  }

  /** The keyword holds no newline, so it cannot start in a line that does not
      itself begin with it. */
  lemma NoKeywordAtLineStart(l: string, rest: string)
    requires |l| > 0 && !StartsWith(l, NameserverKeyword)
    ensures !StartsWith(l + "\n" + rest, NameserverKeyword)
  {
    var s := l + "\n" + rest;
    if |l| >= 10 {
      assert s[..10] == l[..10];
    } else if |s| >= 10 {
      assert s[|l|] == '\n';
      assert s[..10][|l|] == '\n';
    }
  }

  /** A line without the keyword contributes nothing: the keyword holds no
      newline, so no match can start inside the line. */
  lemma {:induction false} SkipLine(l: string, rest: string)
    requires !Contains(l, NameserverKeyword)
    ensures Nameservers(l + "\n" + rest) == Nameservers(rest)
    decreases |l|
  {
    if l == [] {
      assert l + "\n" + rest == "\n" + rest;
      SkipNewline(rest);
    } else {
      var s := l + "\n" + rest;
      assert !StartsWith(l, NameserverKeyword) && !Contains(l[1..], NameserverKeyword);
      NoKeywordAtLineStart(l, rest);
      NameserversSkip(s);
      assert s[1..] == l[1..] + "\n" + rest;
      SkipLine(l[1..], rest);
    }
  }

  /** `\s+` takes all of a whitespace run that a non-space follows. */
  lemma {:induction false} SpaceRunOf(w: string, r: string)
    requires AllSpace(w) && (r == [] || !IsSpace(r[0]))
    ensures SpaceRun(w + r) == |w|
    decreases |w|
  {
    if w == [] {
      assert w + r == r;
    } else {
      assert (w + r)[0] == w[0];
      assert (w + r)[1..] == w[1..] + r;
      SpaceRunOf(w[1..], r);
    }
  }

  /** `[\d\.]+` takes all of an address that a non-address character follows. */
  lemma {:induction false} AddressRunOf(a: string, r: string)
    requires forall i :: 0 <= i < |a| ==> IsAddressChar(a[i])
    requires r == [] || !IsAddressChar(r[0])
    ensures AddressRun(a + r) == |a|
    decreases |a|
  {
    if a == [] {
      assert a + r == r;
    } else {
      assert (a + r)[0] == a[0];
      assert (a + r)[1..] == a[1..] + r;
      AddressRunOf(a[1..], r);
    }
  }

  /** The match the pattern makes once the keyword, a whitespace run of `w`
      characters and an address run of `g` characters have been read. */
  lemma NameserverHereAt(s: string, w: nat, g: nat)
    requires StartsWith(s, NameserverKeyword) && w > 0 && g > 0 && 10 + w + g <= |s|
    requires SpaceRun(s[10..]) == w && AddressRun(s[10 + w..]) == g
    ensures NameserverHere(s) == Some(Match(s[10 + w..10 + w + g], 10 + w + g))
  {
  }

  lemma PrefixThenRest(p: string, v: string)
    ensures StartsWith(p + v, p) && (p + v)[|p|..] == v
  {
    assert (p + v)[..|p|] == p;
  }

  lemma PrefixThenPiece(p: string, x: string, r: string)
    ensures (p + (x + r))[|p|..] == x + r && (p + (x + r))[|p|..|p| + |x|] == x
  {
  }

  /** Regroupings of a four-part concatenation. */
  lemma Regroup(a: string, b: string, c: string, d: string)
    ensures a + b + c + d == a + (b + (c + d))
    ensures a + b + c + d == (a + b) + (c + d)
    ensures a + b + c + d == a + (b + c + d)
    ensures a + b + c + d == a + b + (c + d)
  {
  }

  /** The pattern matches at the keyword, capturing the address. */
  lemma MatchAtKeyword(gap: string, addr: string, r: string)
    requires |gap| > 0 && AllSpace(gap) && IsAddressRun(addr)
    requires r == [] || !IsAddressChar(r[0])
    ensures NameserverHere(NameserverKeyword + gap + addr + r)
            == Some(Match(addr, 10 + |gap| + |addr|))
  {
    var u := addr + r;
    var s := NameserverKeyword + gap + addr + r;
    assert |NameserverKeyword| == 10;
    Regroup(NameserverKeyword, gap, addr, r);
    PrefixThenRest(NameserverKeyword, gap + u);
    assert u[0] == addr[0];
    SpaceRunOf(gap, u);
    PrefixThenPiece(NameserverKeyword + gap, addr, r);
    AddressRunOf(addr, r);
    NameserverHereAt(s, |gap|, |addr|);
  }

  /** One step of the scan at a position where the pattern matches. */
  lemma NameserversStep(s: string, m: Match)
    requires NameserverHere(s) == Some(m)
    ensures Nameservers(s) == [m.group] + Nameservers(s[m.end..])
  {
  }

  /** After a match at the keyword the scan resumes right after the address. */
  lemma NameserversAfterMatch(gap: string, addr: string, r: string)
    requires |gap| > 0 && AllSpace(gap) && IsAddressRun(addr)
    requires r == [] || !IsAddressChar(r[0])
    ensures Nameservers(NameserverKeyword + gap + addr + r) == [addr] + Nameservers(r)
  {
    var p := NameserverKeyword + gap + addr;
    assert |NameserverKeyword| == 10;
    MatchAtKeyword(gap, addr, r);
    NameserversStep(p + r, Match(addr, |p|));
    PrefixThenRest(p, r);
  }

  /** A `nameserver` entry contributes its address, and the scan goes on after
      the line. */
  lemma EntryRead(gap: string, addr: string, after: string, rest: string)
    requires WellFormedLine(NameserverEntry(gap, addr, after))
    ensures Nameservers(LineText(NameserverEntry(gap, addr, after)) + "\n" + rest)
            == [addr] + Nameservers(rest)
  {
    var p := NameserverKeyword + gap + addr;
    var r := after + "\n" + rest;
    Regroup(p, after, "\n", rest);
    assert r[0] == if after == [] then '\n' else after[0];
    NameserversAfterMatch(gap, addr, r);
    SkipLine(after, rest);
  }

  /** The pattern is not anchored to the start of a line: a commented-out
      entry is reported as well. */
  lemma CommentedEntryRead(gap: string, addr: string, after: string, rest: string)
    requires WellFormedLine(NameserverEntry(gap, addr, after))
    ensures Nameservers("#" + LineText(NameserverEntry(gap, addr, after)) + "\n" + rest)
            == [addr] + Nameservers(rest)
  {
    var t := LineText(NameserverEntry(gap, addr, after)) + "\n" + rest;
    var s := "#" + LineText(NameserverEntry(gap, addr, after)) + "\n" + rest;
    assert s == "#" + t;
    assert s[0] == '#' && !StartsWith(s, NameserverKeyword);
    assert s[1..] == t;
    EntryRead(gap, addr, after, rest);
  }

  /** One line of either kind, with its newline, contributes its own address
      if it has one, and the scan goes on after it. */
  lemma LineThen(l: ConfLine, rest: string)
    requires WellFormedLine(l)
    ensures Nameservers(LineText(l) + "\n" + rest) == LineAddresses(l) + Nameservers(rest)
  {
    match l
    case NameserverEntry(gap, addr, after) =>
      EntryRead(gap, addr, after, rest);
    case OtherLine(text) =>
      SkipLine(text, rest);
  }

  /** Reading the lines of a `resolv.conf` gives exactly the addresses of
      their `nameserver` entries, in file order, whatever other lines surround
      them; the scan then goes on in whatever text follows. */
  lemma {:induction false} NameserversOfLinesThen(lines: seq<ConfLine>, tail: string)
    requires forall k :: 0 <= k < |lines| ==> WellFormedLine(lines[k])
    ensures Nameservers(ResolvConf(lines) + tail) == Addresses(lines) + Nameservers(tail)
    decreases |lines|
  {
    if lines == [] {
      assert ResolvConf(lines) + tail == tail;
    } else {
      var rest := ResolvConf(lines[1..]);
      assert forall k :: 0 <= k < |lines| - 1 ==> lines[1..][k] == lines[k + 1];
      NameserversOfLinesThen(lines[1..], tail);
      ResolvConfThen(lines, tail);
      LineThen(lines[0], rest + tail);
      AddressesUnfold(lines);
      Combine(Nameservers(ResolvConf(lines) + tail), LineAddresses(lines[0]),
              Nameservers(rest + tail), Addresses(lines[1..]), Nameservers(tail), Addresses(lines));
    }
  }

  lemma AddressesUnfold(lines: seq<ConfLine>)
    requires lines != []
    ensures Addresses(lines) == LineAddresses(lines[0]) + Addresses(lines[1..])
  {
  }

  lemma Combine(n0: seq<string>, la: seq<string>, n1: seq<string>, a1: seq<string>,
                nt: seq<string>, a0: seq<string>)
    requires n0 == la + n1 && n1 == a1 + nt && a0 == la + a1
    ensures n0 == a0 + nt
  {
  }

  lemma ResolvConfThen(lines: seq<ConfLine>, tail: string)
    requires lines != []
    ensures ResolvConf(lines) + tail
            == LineText(lines[0]) + "\n" + (ResolvConf(lines[1..]) + tail)
  {
    Regroup(LineText(lines[0]), "\n", ResolvConf(lines[1..]), tail);
  }

  /** Reading a `resolv.conf` whose every line ends in a newline gives exactly
      the addresses of its `nameserver` entries, in file order. */
  lemma NameserversOfResolvConf(lines: seq<ConfLine>)
    requires forall k :: 0 <= k < |lines| ==> WellFormedLine(lines[k])
    ensures Nameservers(ResolvConf(lines)) == Addresses(lines)
  {
    NameserversOfLinesThen(lines, "");
    assert ResolvConf(lines) + "" == ResolvConf(lines);
  }

  /** A last line without its newline is read like any other. */
  lemma LastLineRead(l: ConfLine)
    requires WellFormedLine(l)
    ensures Nameservers(LineText(l)) == LineAddresses(l)
  {
    match l
    case NameserverEntry(gap, addr, after) =>
      NameserversAfterMatch(gap, addr, after);
      NoKeywordNoServers(after);
    case OtherLine(text) =>
      NoKeywordNoServers(text);
  }

  lemma {:induction false} AddressesAppend(lines: seq<ConfLine>, more: seq<ConfLine>)
    ensures Addresses(lines + more) == Addresses(lines) + Addresses(more)
    decreases |lines|
  {
    if lines == [] {
      assert lines + more == more;
    } else {
      assert (lines + more)[0] == lines[0];
      assert (lines + more)[1..] == lines[1..] + more;
      AddressesAppend(lines[1..], more);
    }
  }

  lemma AddressesAppendLast(lines: seq<ConfLine>, last: ConfLine)
    ensures Addresses(lines + [last]) == Addresses(lines) + LineAddresses(last)
  {
    AddressesAppend(lines, [last]);
    assert [last][1..] == [];
  }

  /** A `resolv.conf` whose last line has no newline gives the same addresses. */
  lemma NameserversOfUnterminatedResolvConf(lines: seq<ConfLine>, last: ConfLine)
    requires forall k :: 0 <= k < |lines| ==> WellFormedLine(lines[k])
    requires WellFormedLine(last)
    ensures Nameservers(ResolvConf(lines) + LineText(last)) == Addresses(lines + [last])
  {
    NameserversOfLinesThen(lines, LineText(last));
    LastLineRead(last);
    AddressesAppendLast(lines, last);
  }

  /** Every address listed by `nameserver` entries is a run of digits and dots. */
  lemma {:induction false} AddressesAreRuns(lines: seq<ConfLine>)
    requires forall k :: 0 <= k < |lines| ==> WellFormedLine(lines[k])
    ensures forall k :: 0 <= k < |Addresses(lines)| ==> IsAddressRun(Addresses(lines)[k])
    decreases |lines|
  {
    if lines != [] {
      assert forall k :: 0 <= k < |lines| - 1 ==> lines[1..][k] == lines[k + 1];
      assert WellFormedLine(lines[0]);
      AddressesAreRuns(lines[1..]);
    }
  }

  /** The DNS probe's text for a `resolv.conf`: the items joined by ", ". */
  function DnsList(s: string): (text: string)
    ensures Nameservers(s) != [] ==> Split(text, ", ") == Nameservers(s)
    ensures Nameservers(s) == [] ==> text == ""
  {
    var items := Nameservers(s);
    if items == [] then ""
    else
      NameserversAreAddresses(s);
      SplitJoin(items, ", ");
      Join(items, ", ")
  }

  /** The DNS text of a `resolv.conf` is the addresses of its `nameserver`
      entries joined by ", ". */
  lemma DnsListOfResolvConf(lines: seq<ConfLine>)
    requires forall k :: 0 <= k < |lines| ==> WellFormedLine(lines[k])
    ensures DnsList(ResolvConf(lines)) == Join(Addresses(lines), ", ")
  {
    NameserversOfResolvConf(lines);
  }

  // ---------------------------------------------------------------------------
  // Address: (\d+\.\d+\.\d+\.\d+)

  /** The label is nine characters long; the matchers below write
      `|AddressLabel|` as the offset 9. */
  const AddressLabel: string := "Address: "

  /** A non-empty run of `\d` characters, the shape of each group of the quad. */
  predicate IsDigitRun(s: string)
  {
    |s| > 0 && AllDigits(s)
  }

  /** `count` dot-separated digit groups at the start of `s`, each a maximal
      `\d+` run; `None` when they are not there. */
  function DottedGroups(s: string, count: nat): Option<seq<string>>
    requires count >= 1
    decreases count
  {
    var d := DigitRun(s);
    if d == 0 then None
    else if count == 1 then Some([s[..d]])
    else if d < |s| && s[d] == '.' then
      match DottedGroups(s[d + 1..], count - 1)
      case Some(rest) => Some([s[..d]] + rest)
      case None => None
    else None
  }

  /** What `DottedGroups` reads is `count` digit groups that, joined by dots,
      begin `s`. */
  lemma {:induction false} DottedGroupsShape(s: string, count: nat)
    requires count >= 1 && DottedGroups(s, count).Some?
    ensures |DottedGroups(s, count).value| == count
    ensures forall k :: 0 <= k < count ==> IsDigitRun(DottedGroups(s, count).value[k])
    ensures StartsWith(s, Join(DottedGroups(s, count).value, "."))
    decreases count
  {
    var d := DigitRun(s);
    var g := s[..d];
    assert IsDigitRun(g);
    if count == 1 {
      assert Join([g], ".") == g;
    } else {
      var rest := DottedGroups(s[d + 1..], count - 1).value;
      var gs := [g] + rest;
      assert DottedGroups(s, count) == Some(gs);
      DottedGroupsShape(s[d + 1..], count - 1);
      forall k | 0 <= k < count
        ensures IsDigitRun(gs[k])
      {
        if k > 0 {
          assert gs[k] == rest[k - 1];
        }
      }
      StartsWithGroups(s, d, rest);
    }
  }

  /** A group, a dot, and text starting with the remaining groups joined by
      dots, starts with all the groups joined by dots. */
  lemma StartsWithGroups(s: string, d: nat, rest: seq<string>)
    requires d < |s| && s[d] == '.' && |rest| >= 1
    requires StartsWith(s[d + 1..], Join(rest, "."))
    ensures StartsWith(s, Join([s[..d]] + rest, "."))
  {
    SplitAtDot(s, d);
    JoinConsGroup(s[..d], rest);
    StartsWithPrepend(s[..d] + ".", s[d + 1..], Join(rest, "."));
  }

  lemma SplitAtDot(s: string, d: nat)
    requires d < |s| && s[d] == '.'
    ensures s == s[..d] + "." + s[d + 1..]
  {
    assert s[..d + 1] == s[..d] + ".";
    assert s == s[..d + 1] + s[d + 1..];
  }

  lemma JoinConsGroup(g: string, rest: seq<string>)
    requires |rest| >= 1
    ensures Join([g] + rest, ".") == g + "." + Join(rest, ".")
  {
    assert ([g] + rest)[1..] == rest;
  }

  lemma StartsWithPrepend(p: string, t: string, j: string)
    requires StartsWith(t, j)
    ensures StartsWith(p + t, p + j)
  {
    assert (p + t)[..|p| + |j|] == p + t[..|j|];
  }

  /** The address pattern matches at the start of `s`: the label (9
      characters), then four dotted digit groups. */
  predicate AddressHere(s: string)
  {
    StartsWith(s, AddressLabel) && DottedGroups(s[9..], 4).Some?
  }

  /** A dotted quad: four non-empty digit groups separated by single dots. */
  predicate IsDottedQuad(ip: string)
  {
    var parts := Split(ip, ".");
    |parts| == 4 && forall k :: 0 <= k < 4 ==> IsDigitRun(parts[k])
  }

  /** The groups read after the label form a dotted quad that follows the
      label in the text. */
  lemma QuadAtLabel(s: string, gs: seq<string>)
    requires StartsWith(s, AddressLabel) && DottedGroups(s[9..], 4) == Some(gs)
    ensures IsDottedQuad(Join(gs, "."))
    ensures Contains(s, AddressLabel + Join(gs, "."))
  {
    DottedGroupsShape(s[9..], 4);
    var q := Join(gs, ".");
    LabelThenText(s);
    StartsWithPrepend(AddressLabel, s[9..], q);
    SplitJoin(gs, ".");
  }

  lemma LabelThenText(s: string)
    requires StartsWith(s, AddressLabel)
    ensures s == AddressLabel + s[9..]
  {
    assert s == s[..9] + s[9..];
  }

  /** `re.search` of the address pattern: the captured quad at the first
      position where the pattern matches. */
  function SearchAddress(s: string): Option<string>
    decreases |s|
  {
    if AddressHere(s) then Some(Join(DottedGroups(s[9..], 4).value, "."))
    else if |s| == 0 then None
    else SearchAddress(s[1..])
  }

  /** What the search finds is a dotted quad, and the text holds it right
      after the label. */
  lemma {:induction false} SearchAddressFound(s: string)
    ensures SearchAddress(s).Some? ==> IsDottedQuad(SearchAddress(s).value)
    ensures SearchAddress(s).Some? ==> Contains(s, AddressLabel + SearchAddress(s).value)
    decreases |s|
  {
    if AddressHere(s) {
      QuadAtLabel(s, DottedGroups(s[9..], 4).value);
    } else if |s| > 0 {
      SearchAddressFound(s[1..]);
    }
  }

  /** Without the label anywhere in the text the search finds nothing. */
  lemma {:induction false} NoLabelNoAddress(s: string)
    requires !Contains(s, AddressLabel)
    ensures SearchAddress(s) == None
    decreases |s|
  {
    if |s| > 0 {
      NoLabelNoAddress(s[1..]);
    }
  }

  lemma DigitRunOf(x: string, rest: string)
    requires AllDigits(x)
    requires rest == [] || !IsDigit(rest[0])
    ensures DigitRun(x + rest) == |x|
    decreases |x|
  {
    if |x| > 0 {
      assert (x + rest)[1..] == x[1..] + rest;
      DigitRunOf(x[1..], rest);
    } else {
      assert x + rest == rest;
    }
  }

  lemma DottedGroupsOfSingle(g: string, post: string)
    requires IsDigitRun(g)
    requires post == [] || !IsDigit(post[0])
    ensures DottedGroups(g + post, 1) == Some([g])
  {
    DigitRunOf(g, post);
    assert (g + post)[..|g|] == g;
  }

  lemma DottedGroupsStep(gs: seq<string>, post: string)
    requires |gs| > 1 && IsDigitRun(gs[0])
    requires DottedGroups(Join(gs[1..], ".") + post, |gs| - 1) == Some(gs[1..])
    ensures DottedGroups(Join(gs, ".") + post, |gs|) == Some(gs)
  {
    var tail := Join(gs[1..], ".") + post;
    var s := Join(gs, ".") + post;
    JoinCons(gs, ".", post);
    assert s == gs[0] + ("." + tail);
    DigitRunOf(gs[0], "." + tail);
    assert s[..|gs[0]|] == gs[0];
    assert s[|gs[0]|] == '.';
    assert s[|gs[0]| + 1..] == tail;
    assert [gs[0]] + gs[1..] == gs;
  }

  /** Digit groups joined by dots are read back group by group, provided the
      last group is not followed by another digit. */
  lemma {:induction false} DottedGroupsOfJoin(gs: seq<string>, post: string)
    requires |gs| >= 1
    requires forall k :: 0 <= k < |gs| ==> IsDigitRun(gs[k])
    requires post == [] || !IsDigit(post[0])
    ensures DottedGroups(Join(gs, ".") + post, |gs|) == Some(gs)
    decreases |gs|
  {
    if |gs| == 1 {
      assert Join(gs, ".") == gs[0];
      DottedGroupsOfSingle(gs[0], post);
      assert gs == [gs[0]];
    } else {
      DottedGroupsOfJoin(gs[1..], post);
      DottedGroupsStep(gs, post);
    }
  }

  /** The leftmost match wins: a prefix where the pattern matches nowhere is
      skipped. */
  lemma {:induction false} SearchAddressSkips(pre: string, t: string)
    requires forall i :: 0 <= i < |pre| ==> !AddressHere(pre[i..] + t)
    ensures SearchAddress(pre + t) == SearchAddress(t)
    decreases |pre|
  {
    if |pre| > 0 {
      assert pre[0..] + t == pre + t;
      assert (pre + t)[1..] == pre[1..] + t;
      forall i | 0 <= i < |pre[1..]|
        ensures !AddressHere(pre[1..][i..] + t)
      {
        assert pre[1..][i..] == pre[i + 1..];
      }
      SearchAddressSkips(pre[1..], t);
    } else {
      assert pre + t == t;
    }
  }

  lemma SearchAddressAtLabel(gs: seq<string>, post: string)
    requires |gs| == 4 && forall k :: 0 <= k < 4 ==> IsDigitRun(gs[k])
    requires post == [] || !IsDigit(post[0])
    ensures SearchAddress(AddressLabel + (Join(gs, ".") + post)) == Some(Join(gs, "."))
  {
    var rest := Join(gs, ".") + post;
    var t := AddressLabel + rest;
    assert t[..9] == AddressLabel;
    assert t[9..] == rest;
    DottedGroupsOfJoin(gs, post);
    assert DottedGroups(t[9..], 4) == Some(gs);
    assert AddressHere(t);
  }

  /** `re.search` finds a quad written after the label, and it finds the first
      one when nothing before it matches. */
  lemma SearchAddressOf(pre: string, gs: seq<string>, post: string)
    requires |gs| == 4 && forall k :: 0 <= k < 4 ==> IsDigitRun(gs[k])
    requires post == [] || !IsDigit(post[0])
    requires forall i :: 0 <= i < |pre| ==> !AddressHere(pre[i..] + (AddressLabel + (Join(gs, ".") + post)))
    ensures SearchAddress(pre + (AddressLabel + (Join(gs, ".") + post))) == Some(Join(gs, "."))
  {
    SearchAddressSkips(pre, AddressLabel + (Join(gs, ".") + post));
    SearchAddressAtLabel(gs, post);
  }
}
