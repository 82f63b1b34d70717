/**
 get-system-info's report on network interfaces: shell assignments `netif_<index>_<field>="..."`,
 with all addresses of one family of an interface in one value, and a list of the interfaces.

 Output is a sequence of tokens; printing an address or the flags is one token.  if_nametoindex() is
 a parameter that gives 0 for a name without interface.
 */
module NetworkReport {
  import opened Bytes
  import opened OptionType
  import opened Interfaces

  datatype Field = Name | Flags | Inet | Inet6 | Mac

  datatype Key = Netif(index: nat, field: Field) | NetifList

  datatype Value = NameOf(ifname: Text) | FlagsOf(flags: nat) | AddressOf(address: Address, prefixlen: nat) | IndexOf(index: nat)

  /** `Open` prints a key, an equals sign and a quote, `Close` a quote and a newline. */
  datatype Token = Open(key: Key) | Print(value: Value) | Space | Close

  datatype Assignment = Assignment(key: Key, values: seq<Value>)

  type NameToIndex = Text -> nat

  // ---- What the report should be ----

  function FieldOf(a: Address): Field {
    match a
    case IPv4(_) => Inet
    case IPv6(_) => Inet6
    case Link(_) => Mac
    case Other(_) => Mac
  }

  function KeyOf(e: Entry, index: NameToIndex): Key {
    Netif(index(e.ifname), FieldOf(e.address))
  }

  /** The entries whose interface exists, in order. */
  function Kept(entries: seq<Entry>, index: NameToIndex): seq<Entry> {
    if entries == [] then []
    else
      var n := |entries| - 1;
      Kept(entries[..n], index) + (if index(entries[n].ifname) != 0 then [entries[n]] else [])
  }

  function Last(report: seq<Assignment>): Assignment
    requires report != []
  {
    report[|report| - 1]
  }

  /** Is the last assignment about this interface? */
  predicate Continues(report: seq<Assignment>, i: nat) {
    report != [] && Last(report).key.Netif? && Last(report).key.index == i
  }

  /** Name and flags of an interface. */
  function Header(e: Entry, i: nat): seq<Assignment> {
    [Assignment(Netif(i, Name), [NameOf(e.ifname)]), Assignment(Netif(i, Flags), [FlagsOf(e.flags)])]
  }

  /** One more value: it joins the last assignment if the key is the same. */
  function AddValue(report: seq<Assignment>, key: Key, v: Value): seq<Assignment> {
    if report != [] && Last(report).key == key then
      report[..|report| - 1] + [Assignment(key, Last(report).values + [v])]
    else report + [Assignment(key, [v])]
  }

  /** The report on one more entry: a header if the interface is another, then the address. */
  function Add(report: seq<Assignment>, e: Entry, index: NameToIndex): seq<Assignment> {
    var i := index(e.ifname);
    AddValue(if Continues(report, i) then report else report + Header(e, i),
             KeyOf(e, index), AddressOf(e.address, e.prefixlen))
  }

  function Report(kept: seq<Entry>, index: NameToIndex): seq<Assignment> {
    if kept == [] then []
    else
      var n := |kept| - 1;
      Add(Report(kept[..n], index), kept[n], index)
  }

  function ListIndex(before: seq<nat>, i: nat): seq<nat> {
    if before != [] && before[|before| - 1] == i then before else before + [i]
  }

  /** The indices in the list: each index that differs from the one before. */
  function Indices(kept: seq<Entry>, index: NameToIndex): seq<nat> {
    if kept == [] then []
    else
      var n := |kept| - 1;
      ListIndex(Indices(kept[..n], index), index(kept[n].ifname))
  }

  // ---- Assignments as tokens ----

  function Values(values: seq<Value>): seq<Token> {
    if values == [] then []
    else
      var n := |values| - 1;
      Values(values[..n]) + (if n > 0 then [Space] else []) + [Print(values[n])]
  }

  /** An assignment whose quote is still open. */
  function Opened(a: Assignment): seq<Token> {
    [Open(a.key)] + Values(a.values)
  }

  function Tokens(report: seq<Assignment>): seq<Token> {
    if report == [] then []
    else
      var n := |report| - 1;
      Tokens(report[..n]) + Opened(report[n]) + [Close]
  }

  /** A report whose last quote is still open. */
  function OpenTokens(report: seq<Assignment>): seq<Token> {
    if report == [] then []
    else
      var n := |report| - 1;
      Tokens(report[..n]) + Opened(report[n])
  }

  lemma TokensSnoc(report: seq<Assignment>, a: Assignment)
    ensures Tokens(report + [a]) == Tokens(report) + Opened(a) + [Close]
    ensures OpenTokens(report + [a]) == Tokens(report) + Opened(a)
  {
    assert (report + [a])[..|report|] == report;
  }

  lemma ValuesSnoc(values: seq<Value>, v: Value)
    ensures Values(values + [v]) == Values(values) + (if values != [] then [Space] else []) + [Print(v)]
  {
    assert (values + [v])[..|values|] == values;
  }

  function IndexValues(indices: seq<nat>): seq<Value> {
    seq(|indices|, i requires 0 <= i < |indices| => IndexOf(indices[i]))
  }

  /** The report and the list of interfaces. */
  function FullReport(entries: seq<Entry>, index: NameToIndex): seq<Assignment> {
    var kept := Kept(entries, index);
    Report(kept, index) + [Assignment(NetifList, IndexValues(Indices(kept, index)))]
  }

  lemma KeptSnoc(entries: seq<Entry>, i: nat, index: NameToIndex)
    requires i < |entries|
    ensures var kept := Kept(entries[..i], index);
            Kept(entries[..i + 1], index) == if index(entries[i].ifname) != 0 then kept + [entries[i]] else kept
  {
    assert entries[..i + 1][..i] == entries[..i];
  }

  lemma NothingKept(index: NameToIndex)
    ensures Kept([], index) == [] && Report([], index) == [] && Indices([], index) == []
    ensures Values(IndexValues([])) == []
  {}

  lemma IndexValuesSnoc(indices: seq<nat>, i: nat)
    ensures Values(IndexValues(indices + [i])) ==
            Values(IndexValues(indices)) + (if indices != [] then [Space] else []) + [Print(IndexOf(i))]
  {
    ValuesSnoc(IndexValues(indices), IndexOf(i));
    assert IndexValues(indices + [i]) == IndexValues(indices) + [IndexOf(i)];
  }

  lemma OpenNothing()
    ensures OpenTokens([]) == [] == Tokens([])
  {}

  lemma CloseTokens(report: seq<Assignment>)
    ensures Tokens(report) == OpenTokens(report) + (if report == [] then [] else [Close])
  {}

  lemma ReportSnoc(kept: seq<Entry>, e: Entry, index: NameToIndex)
    ensures Report(kept + [e], index) == Add(Report(kept, index), e, index)
  {
    assert (kept + [e])[..|kept|] == kept;
  }

  lemma IndicesSnoc(kept: seq<Entry>, e: Entry, index: NameToIndex)
    ensures Indices(kept + [e], index) == ListIndex(Indices(kept, index), index(e.ifname))
  {
    hide ListIndex;
    assert (kept + [e])[..|kept|] == kept;
  }

  lemma HeaderEnds(report: seq<Assignment>, e: Entry, i: nat)
    ensures report + Header(e, i) != []
    ensures Last(report + Header(e, i)) == Assignment(Netif(i, Flags), [FlagsOf(e.flags)])
  {}

  lemma AddValueEnds(report: seq<Assignment>, key: Key, v: Value)
    ensures var r := AddValue(report, key, v);
            r != [] && Last(r).key == key && Last(r).values != []
  {}

  /** A report ends with the assignment for its last entry. */
  lemma ReportEnds(kept: seq<Entry>, index: NameToIndex)
    ensures var report := Report(kept, index);
            if kept == [] then report == []
            else report != [] && Last(report).key == KeyOf(kept[|kept| - 1], index) && Last(report).values != []
  {
    if kept != [] {
      var n := |kept| - 1;
      var before, e := Report(kept[..n], index), kept[n];
      AddValueEnds(if Continues(before, index(e.ifname)) then before else before + Header(e, index(e.ifname)),
                   KeyOf(e, index), AddressOf(e.address, e.prefixlen));
    }
  }

  lemma NewKeyTokens(report: seq<Assignment>, key: Key, v: Value)
    ensures OpenTokens(report + [Assignment(key, [v])]) == Tokens(report) + [Open(key)] + [Print(v)]
  {
    TokensSnoc(report, Assignment(key, [v]));
    ValuesSnoc([], v);
    assert [] + [v] == [v];
  }

  lemma SameKeyTokens(report: seq<Assignment>, v: Value)
    requires report != [] && Last(report).values != []
    ensures OpenTokens(AddValue(report, Last(report).key, v)) == OpenTokens(report) + [Space] + [Print(v)]
  {
    hide Tokens, OpenTokens, Values;
    var before, last := report[..|report| - 1], Last(report);
    assert report == before + [last];
    TokensSnoc(before, last);
    TokensSnoc(before, Assignment(last.key, last.values + [v]));
    ValuesSnoc(last.values, v);
  }

  predicate IpOrLink(family: nat) {
    family == AF_INET || family == AF_INET6 || family == AF_PACKET
  }

  function FieldOfFamily(family: nat): Field {
    if family == AF_INET then Inet else if family == AF_INET6 then Inet6 else Mac
  }

  lemma HeaderTokens(report: seq<Assignment>, i: nat, e: Entry)
    ensures Tokens(report + Header(e, i)) ==
            Tokens(report) + [Open(Netif(i, Name)), Print(NameOf(e.ifname)), Close]
            + [Open(Netif(i, Flags))] + [Print(FlagsOf(e.flags))] + [Close]
  {
    var name, flags := Header(e, i)[0], Header(e, i)[1];
    TokensSnoc(report, name);
    TokensSnoc(report + [name], flags);
    ValuesSnoc([], NameOf(e.ifname));
    ValuesSnoc([], FlagsOf(e.flags));
    assert [] + [NameOf(e.ifname)] == [NameOf(e.ifname)] && [] + [FlagsOf(e.flags)] == [FlagsOf(e.flags)];
    assert report + [name] + [flags] == report + Header(e, i);
  }

  // ---- The printer ----

  class Reporter {
    const index: NameToIndex
    var out: seq<Token>

    constructor (nameToIndex: NameToIndex)
      ensures index == nameToIndex && out == []
    {
      index, out := nameToIndex, [];
    }

    /** Ends the report on the last interface and prints name and flags of another one. */
    method PrintHeader(e: Entry, ifIndex: nat, lastIfIndex: nat, ghost report: seq<Assignment>)
      requires out == OpenTokens(report)
      requires report == [] <==> lastIfIndex == 0
      modifies this
      ensures out == Tokens(report + Header(e, ifIndex))
    {
      if lastIfIndex != 0 {
        out := out + [Close];
      }
      assert out == Tokens(report);
      out := out + [Open(Netif(ifIndex, Name)), Print(NameOf(e.ifname)), Close];
      out := out + [Open(Netif(ifIndex, Flags))];
      out := out + [Print(FlagsOf(e.flags))];
      out := out + [Close];
      HeaderTokens(report, ifIndex, e);
    }

    /** Prints an address, in the open quote if there is one and the family is the same. */
    method PrintAddress(e: Entry, ifIndex: nat, lastFamily: nat, ghost report: seq<Assignment>)
      requires !e.address.Other? && ifIndex == index(e.ifname)
      requires out == if lastFamily == 0 then Tokens(report) else OpenTokens(report)
      requires report != [] && Last(report).values != []
      requires Last(report).key == Netif(ifIndex, if lastFamily == 0 then Flags else FieldOfFamily(lastFamily))
      requires lastFamily == 0 || IpOrLink(lastFamily)
      modifies this
      ensures out == OpenTokens(AddValue(report, KeyOf(e, index), AddressOf(e.address, e.prefixlen)))
    {
      hide Tokens, OpenTokens;
      CloseTokens(report);
      ghost var address := AddressOf(e.address, e.prefixlen);
      if lastFamily != e.address.Family() {
        if lastFamily != 0 {
          out := out + [Close];
        }
        assert out == Tokens(report);
        match e.address {
          case IPv6(_) => out := out + [Open(Netif(ifIndex, Inet6))];
          case IPv4(_) => out := out + [Open(Netif(ifIndex, Inet))];
          case Link(_) => out := out + [Open(Netif(ifIndex, Mac))];
        }
        NewKeyTokens(report, KeyOf(e, index), address);
      } else {
        out := out + [Space];
        SameKeyTokens(report, address);
      }
      out := out + [Print(AddressOf(e.address, e.prefixlen))];
    }

    /** The assignments for all interfaces, and the index of every entry. */
    method PrintInterfaces(entries: seq<Entry>) returns (ifIndices: array<nat>)
      requires out == []
      requires forall e :: e in entries ==> !e.address.Other?
      modifies this
      ensures fresh(ifIndices) && ifIndices.Length == |entries|
      ensures forall k :: 0 <= k < |entries| ==> ifIndices[k] == index(entries[k].ifname)
      ensures out == Tokens(Report(Kept(entries, index), index))
    {
      hide Tokens, OpenTokens, Header, AddValue, Kept, Report;
      ifIndices := new nat[|entries|];
      var lastIfIndex, lastFamily := 0, 0;
      OpenNothing();
      NothingKept(index);
      assert entries[..0] == [];
      for i := 0 to |entries|
        invariant forall k :: 0 <= k < i ==> ifIndices[k] == index(entries[k].ifname)
        invariant out == OpenTokens(Report(Kept(entries[..i], index), index))
        invariant var kept := Kept(entries[..i], index);
                  if kept == [] then lastIfIndex == 0
                  else var last := kept[|kept| - 1];
                       lastIfIndex == index(last.ifname) != 0 && lastFamily == last.address.Family() && last in entries
      {
        var e := entries[i];
        ghost var kept := Kept(entries[..i], index);
        ghost var report := Report(kept, index);
        assert entries[..i + 1][..i] == entries[..i] && entries[..i + 1][i] == e;
        KeptSnoc(entries, i, index);
        ifIndices[i] := index(e.ifname);
        if ifIndices[i] != 0 {
          ReportSnoc(kept, e, index);
          ReportEnds(kept, index);
          if lastIfIndex == 0 || lastIfIndex != ifIndices[i] {
            PrintHeader(e, ifIndices[i], lastIfIndex, report);
            HeaderEnds(report, e, ifIndices[i]);
            PrintAddress(e, ifIndices[i], 0, report + Header(e, ifIndices[i]));
          } else {
            PrintAddress(e, ifIndices[i], lastFamily, report);
          }
          lastIfIndex := ifIndices[i];
          lastFamily := e.address.Family();
        }
      }
      assert entries[..|entries|] == entries;
      CloseTokens(Report(Kept(entries, index), index));
      ReportEnds(Kept(entries, index), index);
      if lastIfIndex != 0 {
        out := out + [Close];
      }
    }

    /** The whole report. */
    method ShowNetworkInformation(entries: seq<Entry>)
      requires out == []
      requires forall e :: e in entries ==> !e.address.Other?
      modifies this
      ensures out == Tokens(FullReport(entries, index))
    {
      hide Tokens, Kept, Report, Indices, IndexValues, Values;
      var ifIndices := PrintInterfaces(entries);
      NothingKept(index);
      assert entries[..0] == [];
      ghost var report := Report(Kept(entries, index), index);
      var lastIfIndex := 0;
      out := out + [Open(NetifList)];
      for i := 0 to |entries|
        invariant forall k :: 0 <= k < |entries| ==> ifIndices[k] == index(entries[k].ifname)
        invariant var indices := Indices(Kept(entries[..i], index), index);
                  && out == Tokens(report) + [Open(NetifList)] + Values(IndexValues(indices))
                  && (if indices == [] then lastIfIndex == 0 else lastIfIndex == indices[|indices| - 1] != 0)
      {
        assert entries[..i + 1][..i] == entries[..i] && entries[..i + 1][i] == entries[i];
        ghost var kept := Kept(entries[..i], index);
        ghost var indices := Indices(kept, index);
        KeptSnoc(entries, i, index);
        if ifIndices[i] != 0 {
          IndicesSnoc(kept, entries[i], index);
          if lastIfIndex == 0 || lastIfIndex != ifIndices[i] {
            if lastIfIndex != 0 {
              out := out + [Space];
            }
            out := out + [Print(IndexOf(ifIndices[i]))];
            IndexValuesSnoc(indices, ifIndices[i]);
          }
          lastIfIndex := ifIndices[i];
        }
      }
      out := out + [Close];
      assert entries[..|entries|] == entries;
      TokensSnoc(report, Assignment(NetifList, IndexValues(Indices(Kept(entries, index), index))));
    }
  }

  // ---- What the report guarantees ----

  /** Quotes are opened and closed in turn, and values are printed only between them. */
  predicate Balanced(open: bool, tokens: seq<Token>)
    decreases |tokens|
  {
    if tokens == [] then !open
    else
      match tokens[0]
      case Open(_) => !open && Balanced(true, tokens[1..])
      case Close => open && Balanced(false, tokens[1..])
      case Print(_) => open && Balanced(true, tokens[1..])
      case Space => open && Balanced(true, tokens[1..])
  }

  lemma {:induction false} ValuesBalanced(values: seq<Value>, rest: seq<Token>)
    ensures Balanced(true, Values(values) + rest) == Balanced(true, rest)
    decreases |values|
  {
    if values == [] {
      assert Values(values) + rest == rest;
    } else {
      var n := |values| - 1;
      var space: seq<Token> := if n > 0 then [Space] else [];
      var tail := space + ([Print(values[n])] + rest);
      assert Values(values) + rest == Values(values[..n]) + tail;
      ValuesBalanced(values[..n], tail);
      assert ([Print(values[n])] + rest)[1..] == rest;
      assert n > 0 ==> tail[1..] == [Print(values[n])] + rest;
      assert n == 0 ==> tail == [Print(values[n])] + rest;
    }
  }

  lemma {:induction false} TokensBalanced(report: seq<Assignment>, rest: seq<Token>)
    ensures Balanced(false, Tokens(report) + rest) == Balanced(false, rest)
    decreases |report|
  {
    if report == [] {
      assert Tokens(report) + rest == rest;
    } else {
      var n := |report| - 1;
      var a, tail := report[n], [Close] + rest;
      var tokens := [Open(a.key)] + (Values(a.values) + tail);
      assert Tokens(report) + rest == Tokens(report[..n]) + tokens;
      TokensBalanced(report[..n], tokens);
      assert tokens[1..] == Values(a.values) + tail;
      ValuesBalanced(a.values, tail);
      assert tail[1..] == rest;
    }
  }

  /** The addresses in a report, in order, each with the key it is printed under. */
  function Addresses(report: seq<Assignment>): seq<(Key, Value)> {
    if report == [] then []
    else
      var n := |report| - 1;
      Addresses(report[..n]) + UnderKey(report[n].key, report[n].values)
  }

  function UnderKey(key: Key, values: seq<Value>): seq<(Key, Value)> {
    if values == [] then []
    else
      var n := |values| - 1;
      UnderKey(key, values[..n]) + (if values[n].AddressOf? then [(key, values[n])] else [])
  }

  lemma AddressesSnoc(report: seq<Assignment>, a: Assignment)
    ensures Addresses(report + [a]) == Addresses(report) + UnderKey(a.key, a.values)
  {
    assert (report + [a])[..|report|] == report;
  }

  lemma NothingUnderKey(key: Key)
    ensures UnderKey(key, []) == []
  {}

  lemma UnderKeySnoc(key: Key, values: seq<Value>, v: Value)
    ensures UnderKey(key, values + [v]) == UnderKey(key, values) + (if v.AddressOf? then [(key, v)] else [])
  {
    assert (values + [v])[..|values|] == values;
  }

  lemma AddressesOfAddValue(report: seq<Assignment>, key: Key, v: Value)
    requires v.AddressOf?
    ensures Addresses(AddValue(report, key, v)) == Addresses(report) + [(key, v)]
  {
    hide UnderKey;
    NothingUnderKey(key);
    if report != [] && Last(report).key == key {
      var before, last := report[..|report| - 1], Last(report);
      AddressesSnoc(before, Assignment(key, last.values + [v]));
      UnderKeySnoc(key, last.values, v);
    } else {
      AddressesSnoc(report, Assignment(key, [v]));
      UnderKeySnoc(key, [], v);
      assert [] + [v] == [v];
    }
  }

  lemma AddressesOfHeader(report: seq<Assignment>, e: Entry, i: nat)
    ensures Addresses(report + Header(e, i)) == Addresses(report)
  {
    hide Addresses, UnderKey;
    var name, flags := Header(e, i)[0], Header(e, i)[1];
    AddressesSnoc(report, name);
    AddressesSnoc(report + [name], flags);
    UnderKeySnoc(name.key, [], NameOf(e.ifname));
    UnderKeySnoc(flags.key, [], FlagsOf(e.flags));
    NothingUnderKey(name.key);
    NothingUnderKey(flags.key);
    assert [] + name.values == name.values && [] + flags.values == flags.values;
    assert report + Header(e, i) == report + [name] + [flags];
  }

  lemma AddressesOfAdd(report: seq<Assignment>, e: Entry, index: NameToIndex)
    ensures Addresses(Add(report, e, index)) ==
            Addresses(report) + [(KeyOf(e, index), AddressOf(e.address, e.prefixlen))]
  {
    hide Header, AddValue, Addresses;
    var i := index(e.ifname);
    AddressesOfHeader(report, e, i);
    AddressesOfAddValue(if Continues(report, i) then report else report + Header(e, i),
                        KeyOf(e, index), AddressOf(e.address, e.prefixlen));
  }

  /** Every kept address is printed exactly once, under the key of its own interface and family, in order. */
  lemma {:induction false} EveryAddressOnce(kept: seq<Entry>, index: NameToIndex)
    ensures Addresses(Report(kept, index)) ==
            seq(|kept|, k requires 0 <= k < |kept| => (KeyOf(kept[k], index), AddressOf(kept[k].address, kept[k].prefixlen)))
    decreases |kept|
  {
    hide Add, Addresses, KeyOf;
    if kept != [] {
      var n := |kept| - 1;
      EveryAddressOnce(kept[..n], index);
      AddressesOfAdd(Report(kept[..n], index), kept[n], index);
    } else {
      NoAddresses();
    }
  }

  lemma NoAddresses()
    ensures Addresses([]) == []
  {}

  // ---- Every key once ----

  function Keys(report: seq<Assignment>): seq<Key> {
    seq(|report|, i requires 0 <= i < |report| => report[i].key)
  }

  predicate Distinct<T(==)>(s: seq<T>) {
    forall i, j :: 0 <= i < j < |s| ==> s[i] != s[j]
  }

  /** The keys an entry may put into a report. */
  predicate KeyFor(key: Key, e: Entry, index: NameToIndex) {
    key == KeyOf(e, index) || key == Netif(index(e.ifname), Name) || key == Netif(index(e.ifname), Flags)
  }

  /** The interface of an entry, its index and its family are as they should be for the report. */
  predicate Reportable(kept: seq<Entry>, index: NameToIndex) {
    && Sorted(kept)
    && (forall e :: e in kept ==> !e.address.Other? && e.address.Valid() && index(e.ifname) != 0)
    && (forall a, b :: a in kept && b in kept && index(a.ifname) == index(b.ifname) ==> a.ifname == b.ifname)
  }

  /** The keys that one more entry adds. */
  function NewKeys(report: seq<Assignment>, e: Entry, index: NameToIndex): seq<Key> {
    var i := index(e.ifname);
    if report != [] && Last(report).key == KeyOf(e, index) then []
    else if Continues(report, i) then [KeyOf(e, index)]
    else [Netif(i, Name), Netif(i, Flags), KeyOf(e, index)]
  }

  lemma KeysOfAdd(report: seq<Assignment>, e: Entry, index: NameToIndex)
    ensures Keys(Add(report, e, index)) == Keys(report) + NewKeys(report, e, index)
  {
    HeaderEnds(report, e, index(e.ifname));
  }

  lemma KeysOfReport(kept: seq<Entry>, index: NameToIndex)
    requires kept != []
    ensures var n := |kept| - 1;
            var before := Report(kept[..n], index);
            Keys(Report(kept, index)) == Keys(before) + NewKeys(before, kept[n], index)
  {
    KeysOfAdd(Report(kept[..|kept| - 1], index), kept[|kept| - 1], index);
  }

  lemma NothingReported(index: NameToIndex)
    ensures Keys(Report([], index)) == []
  {}

  /** Every key of a report is there for one of the entries. */
  lemma {:induction false} KeyHasEntry(kept: seq<Entry>, index: NameToIndex, key: Key) returns (e: Entry)
    requires key in Keys(Report(kept, index))
    ensures e in kept && KeyFor(key, e, index)
    decreases |kept|
  {
    hide Report, Keys, KeyOf;
    if kept == [] {
      NothingReported(index);
    }
    var n := |kept| - 1;
    KeysOfReport(kept, index);
    if key in Keys(Report(kept[..n], index)) {
      e := KeyHasEntry(kept[..n], index, key);
      assert kept == kept[..n] + [kept[n]];
    } else {
      e := kept[n];
    }
  }

  /** Every entry has its keys in the report: name, flags and its family. */
  lemma {:induction false} EntryHasKeys(kept: seq<Entry>, index: NameToIndex, k: nat)
    requires k < |kept|
    ensures var keys, i := Keys(Report(kept, index)), index(kept[k].ifname);
            KeyOf(kept[k], index) in keys && Netif(i, Name) in keys && Netif(i, Flags) in keys
    decreases |kept|
  {
    hide Report, Keys, Add;
    var n := |kept| - 1;
    var before := Report(kept[..n], index);
    KeysOfReport(kept, index);
    ReportEnds(kept[..n], index);
    if k < n {
      EntryHasKeys(kept[..n], index, k);
    } else if Continues(before, index(kept[n].ifname)) {
      EntryHasKeys(kept[..n], index, n - 1);
      LastKey(before);
    }
  }

  lemma LastKey(report: seq<Assignment>)
    requires report != []
    ensures Last(report).key in Keys(report)
  {
    assert Keys(report)[|report| - 1] == Last(report).key;
  }

  /** Between two entries of one interface there are only entries of this interface, and the same for a family. */
  lemma Sandwich(a: Entry, b: Entry, c: Entry)
    requires a.address.Valid() && b.address.Valid() && c.address.Valid()
    requires Compare(a, b) <= 0 && Compare(b, c) <= 0 && a.ifname == c.ifname
    ensures b.ifname == a.ifname
    ensures a.address.Family() == c.address.Family() ==> b.address.Family() == a.address.Family()
  {
    BytesAreOrdered(a.ifname, b.ifname, a.ifname);
  }

  lemma SameFieldSameFamily(a: Address, b: Address)
    requires !a.Other? && !b.Other?
    ensures FieldOf(a) == FieldOf(b) <==> a.Family() == b.Family()
  {}

  /** The entry before a new one of the same interface, or of the same family of it, has its index or key. */
  lemma SortedTogether(kept: seq<Entry>, index: NameToIndex, i: nat)
    requires Reportable(kept, index) && i < |kept| - 1
    requires index(kept[i].ifname) == index(kept[|kept| - 1].ifname)
    ensures var b, c := kept[|kept| - 2], kept[|kept| - 1];
            && index(b.ifname) == index(c.ifname)
            && (FieldOf(kept[i].address) == FieldOf(c.address) ==> FieldOf(b.address) == FieldOf(c.address))
  {
    var a, b, c := kept[i], kept[|kept| - 2], kept[|kept| - 1];
    assert a in kept && b in kept && c in kept;
    if i < |kept| - 2 {
      Sandwich(a, b, c);
    }
    SameFieldSameFamily(a.address, c.address);
    SameFieldSameFamily(b.address, c.address);
  }

  /** An entry that does not continue the last assignment has new keys. */
  lemma NewKeysAreNew(kept: seq<Entry>, index: NameToIndex, key: Key)
    requires kept != [] && Reportable(kept, index)
    requires var n := |kept| - 1; key in NewKeys(Report(kept[..n], index), kept[n], index)
    ensures key !in Keys(Report(kept[..|kept| - 1], index))
  {
    hide Reportable, Report, Keys;
    var n := |kept| - 1;
    var before := Report(kept[..n], index);
    if key in Keys(before) {
      var a := KeyHasEntry(kept[..n], index, key);
      var i :| 0 <= i < n && kept[i] == a;
      ReportEnds(kept[..n], index);
      SortedTogether(kept, index, i);
    }
  }

  lemma DistinctConcat<T>(a: seq<T>, b: seq<T>)
    requires Distinct(a) && Distinct(b) && forall x :: x in b ==> x !in a
    ensures Distinct(a + b)
  {
    forall i, j | 0 <= i < j < |a + b|
      ensures (a + b)[i] != (a + b)[j]
    {
      if i < |a| <= j {
        assert b[j - |a|] in b;
      }
    }
  }

  lemma ReportablePrefix(kept: seq<Entry>, index: NameToIndex, n: nat)
    requires Reportable(kept, index) && n <= |kept|
    ensures Reportable(kept[..n], index)
  {}

  /** After sorting, no key is assigned twice. */
  lemma {:induction false} EveryKeyOnce(kept: seq<Entry>, index: NameToIndex)
    requires Reportable(kept, index)
    ensures Distinct(Keys(Report(kept, index)))
    decreases |kept|
  {
    hide *;
    if kept == [] {
      NoKeys(index);
    } else {
      var n := |kept| - 1;
      var before := Report(kept[..n], index);
      var added := NewKeys(before, kept[n], index);
      ReportablePrefix(kept, index, n);
      EveryKeyOnce(kept[..n], index);
      KeysOfReport(kept, index);
      NewKeysAreDistinct(before, kept[n], index);
      forall key | key in added
        ensures key !in Keys(before)
      {
        NewKeysAreNew(kept, index, key);
      }
      DistinctConcat(Keys(before), added);
    }
  }

  lemma NoKeys(index: NameToIndex)
    ensures Distinct(Keys(Report([], index)))
  {}

  lemma NewKeysAreDistinct(report: seq<Assignment>, e: Entry, index: NameToIndex)
    ensures Distinct(NewKeys(report, e, index))
  {}

  // ---- The list of interfaces ----

  /** The interfaces of a report, in order. */
  function Named(report: seq<Assignment>): seq<nat> {
    if report == [] then []
    else
      var n := |report| - 1;
      var key := report[n].key;
      Named(report[..n]) + (if key.Netif? && key.field == Name then [key.index] else [])
  }

  lemma NamedSnoc(report: seq<Assignment>, a: Assignment)
    ensures Named(report + [a]) ==
            Named(report) + (if a.key.Netif? && a.key.field == Name then [a.key.index] else [])
  {
    assert (report + [a])[..|report|] == report;
  }

  lemma NamedOfAddValue(report: seq<Assignment>, key: Key, v: Value)
    requires key.Netif? && key.field != Name
    ensures Named(AddValue(report, key, v)) == Named(report)
  {
    if report != [] && Last(report).key == key {
      var before := report[..|report| - 1];
      NamedSnoc(before, Assignment(key, Last(report).values + [v]));
      NamedSnoc(before, Last(report));
      assert before + [Last(report)] == report;
    } else {
      NamedSnoc(report, Assignment(key, [v]));
    }
  }

  lemma NamedOfHeader(report: seq<Assignment>, e: Entry, i: nat)
    ensures Named(report + Header(e, i)) == Named(report) + [i]
  {
    var name, flags := Header(e, i)[0], Header(e, i)[1];
    assert report + Header(e, i) == report + [name] + [flags];
    NamedSnoc(report, name);
    NamedSnoc(report + [name], flags);
  }

  lemma NamedOfAdd(report: seq<Assignment>, e: Entry, index: NameToIndex)
    ensures var i := index(e.ifname);
            Named(Add(report, e, index)) == Named(report) + (if Continues(report, i) then [] else [i])
  {
    hide Named, AddValue, Header;
    var i := index(e.ifname);
    NamedOfHeader(report, e, i);
    NamedOfAddValue(if Continues(report, i) then report else report + Header(e, i),
                         KeyOf(e, index), AddressOf(e.address, e.prefixlen));
  }

  /** The list names the interfaces of the report, in its order. */
  lemma {:induction false} ListIsReportOrder(kept: seq<Entry>, index: NameToIndex)
    ensures var indices := Indices(kept, index);
            && indices == Named(Report(kept, index))
            && (kept == [] <==> indices == [])
            && (kept != [] ==> indices[|indices| - 1] == index(kept[|kept| - 1].ifname))
    decreases |kept|
  {
    hide Add, Named, Report, Indices;
    NothingKept(index);
    if kept != [] {
      var n := |kept| - 1;
      assert kept == kept[..n] + [kept[n]];
      ListIsReportOrder(kept[..n], index);
      ReportEnds(kept[..n], index);
      ReportSnoc(kept[..n], kept[n], index);
      IndicesSnoc(kept[..n], kept[n], index);
      NamedOfAdd(Report(kept[..n], index), kept[n], index);
    } else {
      NoneNamed();
    }
  }

  lemma NoneNamed()
    ensures Named([]) == []
  {}

  /** No interface is listed twice. */
  lemma {:induction false} ListIsDistinct(report: seq<Assignment>)
    requires Distinct(Keys(report))
    ensures Distinct(Named(report))
    ensures forall i :: i in Named(report) ==> Netif(i, Name) in Keys(report)
    decreases |report|
  {
    if report != [] {
      var n := |report| - 1;
      var key := report[n].key;
      assert Keys(report) == Keys(report[..n]) + [key];
      assert Distinct(Keys(report[..n])) by {
        assert forall i :: 0 <= i < n ==> Keys(report[..n])[i] == Keys(report)[i];
      }
      ListIsDistinct(report[..n]);
      assert key !in Keys(report[..n]) by {
        assert forall i :: 0 <= i < n ==> Keys(report)[i] != Keys(report)[n];
        assert forall i :: 0 <= i < n ==> Keys(report[..n])[i] == Keys(report)[i];
      }
      var last := if key.Netif? && key.field == Name then [key.index] else [];
      DistinctConcat(Named(report[..n]), last);
    }
  }

  // ---- All together ----

  lemma {:induction false} KeptAreEntries(entries: seq<Entry>, index: NameToIndex)
    ensures forall e :: e in Kept(entries, index) <==> e in entries && index(e.ifname) != 0
    decreases |entries|
  {
    if entries != [] {
      var n := |entries| - 1;
      KeptAreEntries(entries[..n], index);
      assert entries == entries[..n] + [entries[n]];
    }
  }

  lemma {:induction false} KeptAreSorted(entries: seq<Entry>, index: NameToIndex)
    requires Sorted(entries)
    ensures Sorted(Kept(entries, index))
    decreases |entries|
  {
    hide Sorted;
    if entries == [] {
      NothingSorted();
    } else {
      var n := |entries| - 1;
      var before, last := Kept(entries[..n], index), entries[n];
      SortedPrefix(entries);
      KeptAreSorted(entries[..n], index);
      KeptAreEntries(entries[..n], index);
      forall e | e in before
        ensures Compare(e, last) <= 0
      {
        BelowLast(entries, e);
      }
      SortedSnoc(before, last);
      assert before + [] == before;
    }
  }

  lemma NothingSorted()
    ensures Sorted([])
  {}

  lemma SortedPrefix(entries: seq<Entry>)
    requires Sorted(entries) && entries != []
    ensures Sorted(entries[..|entries| - 1])
  {}

  lemma BelowLast(entries: seq<Entry>, e: Entry)
    requires Sorted(entries) && entries != [] && e in entries[..|entries| - 1]
    ensures Compare(e, entries[|entries| - 1]) <= 0
  {
    hide Compare;
    var k :| 0 <= k < |entries| - 1 && entries[..|entries| - 1][k] == e;
    assert entries[k] == e;
  }

  lemma SortedSnoc(before: seq<Entry>, last: Entry)
    requires Sorted(before) && forall e :: e in before ==> Compare(e, last) <= 0
    ensures Sorted(before + [last])
  {
    hide Compare;
    forall i, j | 0 <= i < j < |before + [last]|
      ensures Compare((before + [last])[i], (before + [last])[j]) <= 0
    {
      assert before[i] in before;
    }
  }

  /**
   The report on sorted entries, if no two existing interfaces share an index: its quotes are
   balanced, every address of an existing interface is printed once and under its own key, every
   interface has its name and flags, no key is assigned twice, and the list names every interface of
   the report once and in its order.
   */
  lemma ReportIsWellFormed(entries: seq<Entry>, index: NameToIndex)
    requires Sorted(entries)
    requires forall e :: e in entries ==> !e.address.Other? && e.address.Valid()
    requires forall a, b :: a in entries && b in entries && index(a.ifname) == index(b.ifname) != 0 ==> a.ifname == b.ifname
    ensures var kept := Kept(entries, index);
            var report := FullReport(entries, index);
            && Balanced(false, Tokens(report))
            && Distinct(Keys(report))
            && Addresses(report) == seq(|kept|, k requires 0 <= k < |kept| =>
                 (KeyOf(kept[k], index), AddressOf(kept[k].address, kept[k].prefixlen)))
            && (forall e :: e in kept ==>
                  Netif(index(e.ifname), Name) in Keys(report) && Netif(index(e.ifname), Flags) in Keys(report))
            && Distinct(Indices(kept, index))
            && Indices(kept, index) == Named(report)
  {
    hide Report, Indices, Addresses, Named, Tokens, Balanced, KeyOf, Kept;
    var kept := Kept(entries, index);
    var report, list := Report(kept, index), Assignment(NetifList, IndexValues(Indices(kept, index)));
    KeptAreEntries(entries, index);
    KeptAreSorted(entries, index);
    ReportIsSound(kept, index);
    QuotesAreBalanced(FullReport(entries, index));
    assert Distinct(Keys(report + [list])) by {
      assert Keys(report + [list]) == Keys(report) + [NetifList];
      DistinctConcat(Keys(report), [NetifList]);
    }
    assert forall key :: key in Keys(report) ==> key in Keys(report + [list]) by {
      assert Keys(report + [list]) == Keys(report) + [NetifList];
    }
    AddressesSnoc(report, list);
    NoAddressesInList(Indices(kept, index));
    NamedSnoc(report, list);
  }

  lemma QuotesAreBalanced(report: seq<Assignment>)
    ensures Balanced(false, Tokens(report))
  {
    TokensBalanced(report, []);
    assert Tokens(report) + [] == Tokens(report);
  }

  lemma {:induction false} NoAddressesInList(indices: seq<nat>)
    ensures UnderKey(NetifList, IndexValues(indices)) == []
    decreases |indices|
  {
    if indices != [] {
      var n := |indices| - 1;
      assert IndexValues(indices)[..n] == IndexValues(indices[..n]);
      NoAddressesInList(indices[..n]);
    }
  }

  lemma ReportIsSound(kept: seq<Entry>, index: NameToIndex)
    requires Reportable(kept, index)
    ensures var report := Report(kept, index);
            && Distinct(Keys(report)) && NetifList !in Keys(report)
            && Addresses(report) == seq(|kept|, k requires 0 <= k < |kept| =>
                 (KeyOf(kept[k], index), AddressOf(kept[k].address, kept[k].prefixlen)))
            && (forall e :: e in kept ==>
                  Netif(index(e.ifname), Name) in Keys(report) && Netif(index(e.ifname), Flags) in Keys(report))
            && Distinct(Indices(kept, index))
            && Indices(kept, index) == Named(report)
  {
    hide Report, Indices, Addresses, Named, Reportable, Keys;
    var report := Report(kept, index);
    EveryKeyOnce(kept, index);
    EveryAddressOnce(kept, index);
    ListIsReportOrder(kept, index);
    ListIsDistinct(report);
    if NetifList in Keys(report) {
      var e := KeyHasEntry(kept, index, NetifList);
    }
    forall e | e in kept
      ensures Netif(index(e.ifname), Name) in Keys(report) && Netif(index(e.ifname), Flags) in Keys(report)
    {
      var k :| 0 <= k < |kept| && kept[k] == e;
      EntryHasKeys(kept, index, k);
    }
  }

  // ---- From the system's addresses to the report ----

  /** An address of an existing interface, with the key it belongs under. */
  function AddressOfEntry(e: Entry, index: NameToIndex): multiset<(Key, Value)> {
    if index(e.ifname) == 0 then multiset{} else multiset{(KeyOf(e, index), AddressOf(e.address, e.prefixlen))}
  }

  /** The addresses of all existing interfaces, each with its key and as often as it is there. */
  function AddressBag(entries: seq<Entry>, index: NameToIndex): multiset<(Key, Value)> {
    if entries == [] then multiset{} else AddressOfEntry(entries[0], index) + AddressBag(entries[1..], index)
  }

  lemma {:induction false} BagConcat(a: seq<Entry>, b: seq<Entry>, index: NameToIndex)
    ensures AddressBag(a + b, index) == AddressBag(a, index) + AddressBag(b, index)
  {
    hide AddressOfEntry;
    if a == [] {
      assert a + b == b;
    } else {
      assert (a + b)[0] == a[0] && (a + b)[1..] == a[1..] + b;
      BagConcat(a[1..], b, index);
    }
  }

  lemma BagOne(e: Entry, index: NameToIndex)
    ensures AddressBag([e], index) == AddressOfEntry(e, index)
  {
    hide AddressOfEntry;
    assert AddressBag([e], index) == AddressOfEntry(e, index) + AddressBag([], index);
  }

  lemma Without(a: seq<Entry>, i: nat, index: NameToIndex) returns (rest: seq<Entry>)
    requires i < |a|
    ensures |rest| == |a| - 1 && multiset(rest) == multiset(a) - multiset{a[i]}
    ensures AddressBag(a, index) == AddressBag(rest, index) + AddressOfEntry(a[i], index)
  {
    hide AddressBag, AddressOfEntry;
    rest := a[..i] + a[i + 1..];
    assert a == a[..i] + [a[i]] + a[i + 1..];
    assert multiset(a) == multiset(rest) + multiset{a[i]};
    BagConcat(a[..i] + [a[i]], a[i + 1..], index);
    BagConcat(a[..i], [a[i]], index);
    BagConcat(a[..i], a[i + 1..], index);
    BagOne(a[i], index);
  }

  /** Sorting does not change the addresses. */
  lemma {:induction false} BagIsPermuted(a: seq<Entry>, b: seq<Entry>, index: NameToIndex)
    requires multiset(a) == multiset(b)
    ensures AddressBag(a, index) == AddressBag(b, index)
    decreases |a|
  {
    hide AddressBag, AddressOfEntry;
    if a == [] {
      assert |multiset(b)| == |b|;
      assert a == b;
    } else {
      assert a[0] in multiset(b);
      var i :| 0 <= i < |b| && b[i] == a[0];
      var restA := Without(a, 0, index);
      var restB := Without(b, i, index);
      BagIsPermuted(restA, restB, index);
    }
  }

  lemma {:induction false} KeptAddresses(entries: seq<Entry>, index: NameToIndex, addresses: seq<(Key, Value)>)
    requires var kept := Kept(entries, index);
             && |addresses| == |kept|
             && forall k :: 0 <= k < |kept| ==> addresses[k] == (KeyOf(kept[k], index), AddressOf(kept[k].address, kept[k].prefixlen))
    ensures multiset(addresses) == AddressBag(entries, index)
    decreases |entries|
  {
    hide Kept, KeyOf, AddressBag;
    if entries == [] {
      NothingKept(index);
      NothingInBag(index);
    } else {
      var n := |entries| - 1;
      var before, last := entries[..n], entries[n];
      assert entries == before + [last] && entries[..n + 1] == entries;
      KeptSnoc(entries, n, index);
      BagConcat(before, [last], index);
      BagOne(last, index);
      if index(last.ifname) == 0 {
        KeptAddresses(before, index, addresses);
      } else {
        var m := |addresses| - 1;
        KeptAddresses(before, index, addresses[..m]);
        assert addresses == addresses[..m] + [addresses[m]];
      }
    }
  }

  lemma NothingInBag(index: NameToIndex)
    ensures AddressBag([], index) == multiset{}
  {}

  lemma {:induction false} ListedIsValid(nodes: seq<Node>, filterLocalScope: bool)
    requires ValidNodes(nodes)
    ensures forall e :: e in Entries(nodes, filterLocalScope) ==> !e.address.Other? && e.address.Valid()
    decreases |nodes|
  {
    if nodes != [] {
      ListedIsValid(nodes[..|nodes| - 1], filterLocalScope);
    }
  }

  /**
   The report on what getifaddrs() returns, whichever permutation qsort() makes of the list: balanced
   quotes, no key twice, name and flags for every existing interface on the list, every address on the
   list as often as it is there and under its own key, and the interfaces listed once each in the
   report's order.
   */
  lemma ReportOnNodes(nodes: seq<Node>, filterLocalScope: bool, sorted: seq<Entry>, index: NameToIndex)
    requires ValidNodes(nodes)
    requires multiset(sorted) == multiset(Take(Entries(nodes, filterLocalScope), MAX_ENTRIES)) && Sorted(sorted)
    requires forall a, b :: a in sorted && b in sorted && index(a.ifname) == index(b.ifname) != 0 ==> a.ifname == b.ifname
    ensures var list := Take(Entries(nodes, filterLocalScope), MAX_ENTRIES);
            var report := FullReport(sorted, index);
            && Balanced(false, Tokens(report))
            && Distinct(Keys(report))
            && multiset(Addresses(report)) == AddressBag(list, index)
            && (forall e :: e in list && index(e.ifname) != 0 ==>
                  Netif(index(e.ifname), Name) in Keys(report) && Netif(index(e.ifname), Flags) in Keys(report))
            && Distinct(Named(report))
            && Last(report) == Assignment(NetifList, IndexValues(Named(report)))
  {
    hide Report, Indices, Addresses, Named, Tokens, Balanced, KeyOf, Kept, Entries, Sorted, Keys, AddressBag;
    var list := Take(Entries(nodes, filterLocalScope), MAX_ENTRIES);
    ListedIsValid(nodes, filterLocalScope);
    SameMembers(sorted, list);
    ReportIsWellFormed(sorted, index);
    KeptAreEntries(sorted, index);
    KeptAddresses(sorted, index, Addresses(FullReport(sorted, index)));
    BagIsPermuted(sorted, list, index);
  }

  lemma SameMembers(a: seq<Entry>, b: seq<Entry>)
    requires multiset(a) == multiset(b)
    ensures forall e :: e in a <==> e in b
  {
    assert forall e :: e in a <==> e in multiset(a);
    assert forall e :: e in b <==> e in multiset(b);
  }

  // ---- One entry written out ----

  /** The key of an entry: ipv4, ipv6 or mac of the interface's index. */
  lemma KeyIsFamily(e: Entry, index: NameToIndex)
    requires !e.address.Other?
    ensures KeyOf(e, index) ==
            Netif(index(e.ifname), if e.address.IPv4? then Inet else if e.address.IPv6? then Inet6 else Mac)
  {}

  /**
   One more entry in the report: for another interface its name, its flags and the address; for another
   family a key of its own; otherwise one more value of the last key.
   */
  lemma ReportStep(kept: seq<Entry>, e: Entry, index: NameToIndex)
    requires !e.address.Other? && forall a :: a in kept ==> !a.address.Other?
    ensures var before, i := Report(kept, index), index(e.ifname);
            var key := Netif(i, if e.address.IPv4? then Inet else if e.address.IPv6? then Inet6 else Mac);
            var v, n := AddressOf(e.address, e.prefixlen), |before| - 1;
            Report(kept + [e], index) ==
              if kept == [] || index(kept[|kept| - 1].ifname) != i then
                before + [Assignment(Netif(i, Name), [NameOf(e.ifname)]), Assignment(Netif(i, Flags), [FlagsOf(e.flags)]),
                          Assignment(key, [v])]
              else if before == [] || before[n].key != key then before + [Assignment(key, [v])]
              else before[..n] + [Assignment(key, before[n].values + [v])]
  {
    hide Report;
    ReportSnoc(kept, e, index);
    ReportEnds(kept, index);
  }

  /** An assignment as it is printed: key, equals sign and quote, the values with spaces between them, quote and newline. */
  lemma TokensWritten(report: seq<Assignment>, key: Key, values: seq<Value>, v: Value)
    ensures Tokens(report + [Assignment(key, [v])]) == Tokens(report) + [Open(key), Print(v), Close]
    ensures values != [] ==>
              exists open :: Tokens(report + [Assignment(key, values)]) == open + [Close]
                             && Tokens(report + [Assignment(key, values + [v])]) == open + [Space, Print(v), Close]
    ensures Tokens([]) == []
  {
    hide Tokens, Values;
    NoTokens();
    TokensSnoc(report, Assignment(key, [v]));
    ValuesSnoc([], v);
    assert [] + [v] == [v];
    TokensSnoc(report, Assignment(key, values));
    TokensSnoc(report, Assignment(key, values + [v]));
    ValuesSnoc(values, v);
    var open := Tokens(report) + Opened(Assignment(key, values));
    assert values != [] ==> Tokens(report + [Assignment(key, values + [v])]) == open + [Space, Print(v), Close];
  }

  lemma NoTokens()
    ensures Tokens([]) == [] && Values([]) == []
  {}

  // ---- An address of the system in the report ----

  lemma {:induction false} InBag(entries: seq<Entry>, e: Entry, index: NameToIndex)
    requires e in entries && index(e.ifname) != 0
    ensures (KeyOf(e, index), AddressOf(e.address, e.prefixlen)) in AddressBag(entries, index)
  {
    hide KeyOf;
    if e != entries[0] {
      InBag(entries[1..], e, index);
    }
  }

  /** The sorted list of the system's addresses, with an index of its own for every existing interface. */
  predicate SortedList(nodes: seq<Node>, filterLocalScope: bool, sorted: seq<Entry>, index: NameToIndex) {
    && ValidNodes(nodes)
    && multiset(sorted) == multiset(Take(Entries(nodes, filterLocalScope), MAX_ENTRIES)) && Sorted(sorted)
    && forall a, b :: a in sorted && b in sorted && index(a.ifname) == index(b.ifname) != 0 ==> a.ifname == b.ifname
  }

  lemma EntryIsPrinted(before: seq<Node>, node: Node, after: seq<Node>, filterLocalScope: bool, e: Entry,
                       sorted: seq<Entry>, index: NameToIndex)
    requires ValidNodes(before) && ValidNodes([node]) && ValidNodes(after) && Lists(before, node, after, filterLocalScope, [e])
    requires |Entries(before, filterLocalScope)| < 1024
    requires SortedList(before + [node] + after, filterLocalScope, sorted, index) && index(e.ifname) != 0
    ensures (KeyOf(e, index), AddressOf(e.address, e.prefixlen)) in Addresses(FullReport(sorted, index))
  {
    hide KeyOf, Addresses, FullReport, Entries, Sorted, ValidNodes, AddressBag, Balanced, Distinct, Tokens, Keys, Named;
    var nodes := before + [node] + after;
    var list := Take(Entries(nodes, filterLocalScope), MAX_ENTRIES);
    assert list[|Entries(before, filterLocalScope)|] == e;
    ReportOnNodes(nodes, filterLocalScope, sorted, index);
    InBag(list, e, index);
    var pair := (KeyOf(e, index), AddressOf(e.address, e.prefixlen));
    assert pair in multiset(Addresses(FullReport(sorted, index)));
  }

  /**
   An IPv4 address of an existing interface with the netmask of a prefix is printed with this prefix
   length under the interface's ipv4 key, unless it is filtered or 1024 addresses are listed before it.
   */
  lemma IPv4IsPrinted(before: seq<Node>, name: Text, bytes: Text, prefixlen: nat, flags: nat, after: seq<Node>,
                      filterLocalScope: bool, sorted: seq<Entry>, index: NameToIndex)
    requires ValidNodes(before) && ValidNodes(after) && |bytes| == 4 && prefixlen <= 32 && index(name) != 0
    requires !(filterLocalScope && bytes == [127, 0, 0, 1])
    requires |Entries(before, filterLocalScope)| < 1024
    requires SortedList(before + [Node(name, Some(IPv4(bytes)), Some(Netmask(prefixlen, 4)), flags)] + after, filterLocalScope, sorted, index)
    ensures (Netif(index(name), Inet), AddressOf(IPv4(bytes), prefixlen)) in Addresses(FullReport(sorted, index))
  {
    hide Lists, Netmask, SortedList, Addresses, FullReport;
    var node := Node(name, Some(IPv4(bytes)), Some(Netmask(prefixlen, 4)), flags);
    IPv4IsListed(before, name, bytes, prefixlen, flags, after, filterLocalScope);
    EntryIsPrinted(before, node, after, filterLocalScope, Entry(name, IPv4(bytes), prefixlen, flags), sorted, index);
  }

  /** An IPv6 address likewise, under the ipv6 key. */
  lemma IPv6IsPrinted(before: seq<Node>, name: Text, bytes: Text, prefixlen: nat, flags: nat, after: seq<Node>,
                      filterLocalScope: bool, sorted: seq<Entry>, index: NameToIndex)
    requires ValidNodes(before) && ValidNodes(after) && |bytes| == 16 && prefixlen <= 128 && index(name) != 0
    requires !(filterLocalScope && (bytes == [0, 0, 0, 0, 0, 0, 0, 0, 0, 0, 0, 0, 0, 0, 0, 1] || (bytes[0] == 254 && 128 <= bytes[1] <= 191)))
    requires |Entries(before, filterLocalScope)| < 1024
    requires SortedList(before + [Node(name, Some(IPv6(bytes)), Some(Netmask(prefixlen, 16)), flags)] + after, filterLocalScope, sorted, index)
    ensures (Netif(index(name), Inet6), AddressOf(IPv6(bytes), prefixlen)) in Addresses(FullReport(sorted, index))
  {
    hide Lists, Netmask, SortedList, Addresses, FullReport;
    var node := Node(name, Some(IPv6(bytes)), Some(Netmask(prefixlen, 16)), flags);
    IPv6IsListed(before, name, bytes, prefixlen, flags, after, filterLocalScope);
    EntryIsPrinted(before, node, after, filterLocalScope, Entry(name, IPv6(bytes), prefixlen, flags), sorted, index);
  }

  /** A link-layer address is printed under the mac key. */
  lemma LinkIsPrinted(before: seq<Node>, name: Text, bytes: Text, flags: nat, after: seq<Node>,
                      filterLocalScope: bool, sorted: seq<Entry>, index: NameToIndex)
    requires ValidNodes(before) && ValidNodes(after) && index(name) != 0
    requires |Entries(before, filterLocalScope)| < 1024
    requires SortedList(before + [Node(name, Some(Link(bytes)), None, flags)] + after, filterLocalScope, sorted, index)
    ensures (Netif(index(name), Mac), AddressOf(Link(bytes), 0)) in Addresses(FullReport(sorted, index))
  {
    hide Lists, SortedList, Addresses, FullReport;
    var node := Node(name, Some(Link(bytes)), None, flags);
    LinkIsListed(before, name, bytes, None, flags, after, filterLocalScope);
    EntryIsPrinted(before, node, after, filterLocalScope, Entry(name, Link(bytes), 0, flags), sorted, index);
  }
}
