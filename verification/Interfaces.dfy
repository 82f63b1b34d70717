/**
 get-system-info's list of interface addresses: which ones it keeps, their prefix lengths, and the
 order they are sorted in.  The link layer is Linux's.
 */
module Interfaces {
  import opened Bytes
  import opened OptionType
  import Numbers

  const AF_INET := 2
  const AF_INET6 := 10
  const AF_PACKET := 17
  const MAX_ENTRIES := 1024

  datatype Address =
    | IPv4(bytes: Text)
    | IPv6(bytes: Text)
    | Link(bytes: Text)
    | Other(family: nat)
  {
    function Family(): nat {
      match this
      case IPv4(_) => AF_INET
      case IPv6(_) => AF_INET6
      case Link(_) => AF_PACKET
      case Other(family) => family
    }

    /** Addresses have the length of their family, and only other families are `Other`. */
    predicate Valid() {
      match this
      case IPv4(bytes) => |bytes| == 4
      case IPv6(bytes) => |bytes| == 16
      case Link(_) => true
      case Other(family) => family != AF_INET && family != AF_INET6 && family != AF_PACKET
    }
  }

  datatype Entry = Entry(ifname: Text, address: Address, prefixlen: nat, flags: nat)

  // ---- The comparator ----

  /** strcmp() of two C strings, memcmp() of two equally long byte strings: negative, zero or positive. */
  function CompareBytes(a: Text, b: Text): int {
    if a == [] then (if b == [] then 0 else -1)
    else if b == [] then 1
    else if a[0] < b[0] then -1
    else if a[0] > b[0] then 1
    else CompareBytes(a[1..], b[1..])
  }

  function CompareAddresses(a: Address, b: Address): int
    requires a.Family() == b.Family()
  {
    match (a, b)
    case (IPv6(x), IPv6(y)) => CompareBytes(x, y)
    case (IPv4(x), IPv4(y)) => CompareBytes(x, y)
    case (Link(x), Link(y)) => if |x| != |y| then |x| - |y| else CompareBytes(x, y)
    case _ => 0
  }

  /** compareInterfaceAddresses() */
  function Compare(a: Entry, b: Entry): int {
    var names := CompareBytes(a.ifname, b.ifname);
    if names < 0 then -1
    else if names == 0 then
      if a.address.Family() < b.address.Family() then -1
      else if a.address.Family() == b.address.Family() then CompareAddresses(a.address, b.address)
      else 1
    else 1
  }

  lemma {:induction false} BytesAreOrdered(a: Text, b: Text, c: Text)
    ensures CompareBytes(a, a) == 0
    ensures CompareBytes(a, b) == -CompareBytes(b, a)
    ensures CompareBytes(a, b) == 0 <==> a == b
    ensures CompareBytes(a, b) <= 0 && CompareBytes(b, c) <= 0 ==> CompareBytes(a, c) <= 0
    decreases |a|
  {
    if a != [] && b != [] {
      BytesAreOrdered(a[1..], b[1..], if c == [] then [] else c[1..]);
      assert a == [a[0]] + a[1..] && b == [b[0]] + b[1..];
    } else if a != [] {
      BytesAreOrdered(a[1..], [], []);
    }
  }

  lemma AddressesAreOrdered(a: Address, b: Address, c: Address)
    requires a.Valid() && b.Valid() && c.Valid()
    requires a.Family() == b.Family() == c.Family()
    ensures CompareAddresses(a, b) == -CompareAddresses(b, a)
    ensures CompareAddresses(a, b) <= 0 && CompareAddresses(b, c) <= 0 ==> CompareAddresses(a, c) <= 0
  {
    if !a.Other? {
      BytesAreOrdered(a.bytes, b.bytes, c.bytes);
      BytesAreOrdered(b.bytes, a.bytes, c.bytes);
    }
  }

  /** The comparator is a total preorder, as qsort() requires. */
  lemma CompareIsTotalPreorder(a: Entry, b: Entry, c: Entry)
    requires a.address.Valid() && b.address.Valid() && c.address.Valid()
    ensures Compare(a, b) < 0 <==> Compare(b, a) > 0
    ensures Compare(a, b) == 0 <==> Compare(b, a) == 0
    ensures Compare(a, b) <= 0 && Compare(b, c) <= 0 ==> Compare(a, c) <= 0
  {
    hide CompareBytes, CompareAddresses;
    BytesAreOrdered(a.ifname, b.ifname, c.ifname);
    BytesAreOrdered(b.ifname, a.ifname, c.ifname);
    BytesAreOrdered(a.ifname, c.ifname, b.ifname);
    BytesAreOrdered(b.ifname, c.ifname, a.ifname);
    if a.address.Family() == b.address.Family() {
      AddressesAreOrdered(a.address, b.address, a.address);
      if c.address.Family() == a.address.Family() {
        AddressesAreOrdered(a.address, b.address, c.address);
      }
    }
  }

  /** `a` comes before `b` in a dictionary of bytes: it is shorter, or has the smaller byte where they first differ. */
  predicate Before(a: Text, b: Text) {
    exists k :: 0 <= k <= |a| && FirstDifferenceAt(a, b, k)
  }

  predicate FirstDifferenceAt(a: Text, b: Text, k: int) {
    0 <= k <= |a| && k < |b| && (forall i :: 0 <= i < k ==> a[i] == b[i]) && (k == |a| || a[k] < b[k])
  }

  lemma {:induction false} BytesInOrder(a: Text, b: Text)
    ensures CompareBytes(a, b) < 0 <==> Before(a, b)
    decreases |a|
  {
    if b != [] && (a == [] || a[0] < b[0]) {
      assert FirstDifferenceAt(a, b, 0);
    } else if a != [] && b != [] && a[0] == b[0] {
      BytesInOrder(a[1..], b[1..]);
      BeforeBehindFirst(a, b);
    }
  }

  lemma BeforeBehindFirst(a: Text, b: Text)
    requires a != [] && b != [] && a[0] == b[0]
    ensures Before(a, b) <==> Before(a[1..], b[1..])
  {
    if Before(a, b) {
      var k :| 0 <= k <= |a| && FirstDifferenceAt(a, b, k);
      assert k > 0;
      DifferenceBehindFirst(a, b, k - 1);
    }
    if Before(a[1..], b[1..]) {
      var k :| 0 <= k <= |a[1..]| && FirstDifferenceAt(a[1..], b[1..], k);
      DifferenceBehindFirst(a, b, k);
    }
  }

  lemma DifferenceBehindFirst(a: Text, b: Text, k: int)
    requires a != [] && b != [] && a[0] == b[0]
    ensures FirstDifferenceAt(a, b, k + 1) <==> FirstDifferenceAt(a[1..], b[1..], k)
  {
    if FirstDifferenceAt(a[1..], b[1..], k) {
      forall i | 0 <= i < k + 1
        ensures a[i] == b[i]
      {
        assert i > 0 ==> a[1..][i - 1] == b[1..][i - 1];
      }
    }
  }

  /**
   The order of the report: by name; for one interface IPv4 before IPv6 before link-layer addresses; for
   one family by the bytes of the address, but shorter link-layer addresses first.
   */
  lemma CompareIsOrder(a: Entry, b: Entry)
    requires a.address.Valid() && b.address.Valid() && !a.address.Other? && !b.address.Other?
    ensures Compare(a, b) < 0 <==>
            || Before(a.ifname, b.ifname)
            || (a.ifname == b.ifname &&
                 if (a.address.IPv4? && b.address.IPv4?) || (a.address.IPv6? && b.address.IPv6?) then
                   Before(a.address.bytes, b.address.bytes)
                 else if a.address.Link? && b.address.Link? then
                   || |a.address.bytes| < |b.address.bytes|
                   || (|a.address.bytes| == |b.address.bytes| && Before(a.address.bytes, b.address.bytes))
                 else a.address.IPv4? || b.address.Link?)
  {
    hide CompareBytes, Before;
    BytesInOrder(a.ifname, b.ifname);
    BytesAreOrdered(a.ifname, b.ifname, []);
    NotBeforeItself(a.ifname);
    BytesInOrder(a.address.bytes, b.address.bytes);
    BytesAreOrdered(a.address.bytes, b.address.bytes, []);
  }

  lemma NotBeforeItself(a: Text)
    ensures !Before(a, a)
  {}

  /** What qsort() leaves behind. */
  predicate Sorted(entries: seq<Entry>) {
    forall i, j :: 0 <= i < j < |entries| ==> Compare(entries[i], entries[j]) <= 0
  }

  // ---- Prefix lengths ----

  function BitsOf(b: nat): nat {
    if b == 0 then 0 else b % 2 + BitsOf(b / 2)
  }

  function BitCount(bytes: Text): nat {
    if bytes == [] then 0 else BitCount(bytes[..|bytes| - 1]) + BitsOf(bytes[|bytes| - 1])
  }

  method CountSetBits(bytes: Text) returns (count: nat)
    ensures count == BitCount(bytes)
  {
    count := 0;
    for i := 0 to |bytes|
      invariant count == BitCount(bytes[..i])
    {
      assert bytes[..i + 1][..i] == bytes[..i];
      var byte: nat := bytes[i];
      while byte != 0
        invariant count + BitsOf(byte) == BitCount(bytes[..i + 1])
      {
        if byte % 2 == 1 {
          count := count + 1;
        }
        byte := byte / 2;
      }
    }
    assert bytes[..|bytes|] == bytes;
  }

  /** The netmask of a prefix: ones, then zeros. */
  function Netmask(prefixlen: nat, size: nat): (mask: Text)
    ensures |mask| == size
  {
    seq(size, i requires 0 <= i < size =>
      if 8 * (i + 1) <= prefixlen then 255 else if prefixlen <= 8 * i then 0 else HighBits(prefixlen - 8 * i))
  }

  function Ones(n: nat): nat {
    if n == 0 then 0 else 2 * Ones(n - 1) + 1
  }

  function Shift(x: nat, k: nat): nat {
    if k == 0 then x else 2 * Shift(x, k - 1)
  }

  lemma {:induction false} HighBitsBelow(n: nat, k: nat)
    ensures Shift(Ones(n), k) < Numbers.Pow(2, n + k)
    decreases n + k
  {
    if k > 0 {
      HighBitsBelow(n, k - 1);
    } else if n > 0 {
      HighBitsBelow(n - 1, 0);
    }
  }

  /** A byte whose `n` highest bits are set. */
  function HighBits(n: nat): Byte
    requires n <= 8
  {
    HighBitsBelow(n, 8 - n);
    assert Numbers.Pow(2, 8) == 256;
    Shift(Ones(n), 8 - n)
  }

  lemma BitsOfDouble(x: nat)
    ensures BitsOf(2 * x) == BitsOf(x) && BitsOf(2 * x + 1) == BitsOf(x) + 1
  {
    assert (2 * x + 1) / 2 == x && (2 * x + 1) % 2 == 1;
  }

  lemma {:induction false} BitsOfShiftedOnes(n: nat, k: nat)
    ensures BitsOf(Shift(Ones(n), k)) == n
    decreases n + k
  {
    if k > 0 {
      hide BitsOf;
      BitsOfShiftedOnes(n, k - 1);
      BitsOfDouble(Shift(Ones(n), k - 1));
    } else if n > 0 {
      hide BitsOf;
      BitsOfShiftedOnes(n - 1, 0);
      BitsOfDouble(Ones(n - 1));
    }
  }

  lemma BitsOfByte(n: nat)
    requires n <= 8
    ensures BitsOf(0) == 0 && BitsOf(255) == 8
    ensures BitsOf(HighBits(n)) == n
  {
    BitsOfShiftedOnes(n, 8 - n);
  }

  lemma NetmaskSnoc(prefixlen: nat, size: nat)
    requires size > 0
    ensures var mask, last := Netmask(prefixlen, size), size - 1;
            && mask[..last] == Netmask(if prefixlen <= 8 * last then prefixlen else 8 * last, last)
            && mask[last] == (if 8 * size <= prefixlen then 255 else if prefixlen <= 8 * last then 0
                              else HighBits(prefixlen - 8 * last))
  {
    hide HighBits;
  }

  /** Counting the bits of a prefix's netmask gives the prefix length. */
  lemma {:induction false} NetmaskBits(prefixlen: nat, size: nat)
    requires prefixlen <= 8 * size
    ensures BitCount(Netmask(prefixlen, size)) == prefixlen
  {
    hide HighBits, BitsOf, Netmask;
    if size > 0 {
      var last := size - 1;
      NetmaskSnoc(prefixlen, size);
      NetmaskBits(if prefixlen <= 8 * last then prefixlen else 8 * last, last);
      BitsOfByte(if prefixlen <= 8 * last then 0 else prefixlen - 8 * last);
    }
  }

  /** The bytes of a netmask: 255, then at most one of 128, 192, 224, 240, 248, 252 and 254, then 0. */
  lemma NetmaskBytes(prefixlen: nat, size: nat, i: nat)
    requires i < size
    ensures var b, n := Netmask(prefixlen, size)[i], prefixlen - 8 * i;
            && (n >= 8 ==> b == 255) && (n <= 0 ==> b == 0)
            && (n == 1 ==> b == 128) && (n == 2 ==> b == 192) && (n == 3 ==> b == 224) && (n == 4 ==> b == 240)
            && (n == 5 ==> b == 248) && (n == 6 ==> b == 252) && (n == 7 ==> b == 254)
  {
    hide HighBits;
    HighBitsTable();
  }

  lemma HighBitsTable()
    ensures HighBits(1) == 128 && HighBits(2) == 192 && HighBits(3) == 224 && HighBits(4) == 240
    ensures HighBits(5) == 248 && HighBits(6) == 252 && HighBits(7) == 254
  {
    assert Ones(1) == 1 && Ones(2) == 3 && Ones(3) == 7;
    assert Ones(4) == 15 && Ones(5) == 31;
    assert Ones(6) == 63 && Ones(7) == 127;
    ShiftTwice(1, 7);
    ShiftTwice(3, 6);
    ShiftTwice(7, 5);
    ShiftTwice(15, 4);
    ShiftTwice(31, 3);
  }

  /** Shifts of up to seven places. */
  lemma ShiftTwice(x: nat, k: nat)
    requires k <= 7
    ensures Shift(x, 1) == 2 * x && Shift(x, 2) == 4 * x && Shift(x, 3) == 8 * x && Shift(x, 4) == 16 * x
    ensures Shift(x, 5) == 32 * x && Shift(x, 6) == 64 * x && Shift(x, 7) == 128 * x
  {
    assert Shift(x, 1) == 2 * Shift(x, 0) && Shift(x, 2) == 2 * Shift(x, 1) && Shift(x, 3) == 2 * Shift(x, 2);
    assert Shift(x, 4) == 2 * Shift(x, 3) && Shift(x, 5) == 2 * Shift(x, 4);
    assert Shift(x, 6) == 2 * Shift(x, 5) && Shift(x, 7) == 2 * Shift(x, 6);
  }

  /** The bits of several bytes add up. */
  lemma {:induction false} BitCountConcat(a: Text, b: Text)
    ensures BitCount(a + b) == BitCount(a) + BitCount(b)
    decreases |b|
  {
    if b == [] {
      assert a + b == a;
    } else {
      var n := |b| - 1;
      assert (a + b)[..|a| + n] == a + b[..n];
      BitCountConcat(a, b[..n]);
    }
  }

  // ---- Building the list ----

  /** What getifaddrs() returns for one address. */
  datatype Node = Node(name: Text, address: Option<Address>, netmask: Option<Text>, flags: nat)

  const LOOPBACK4: Text := [127, 0, 0, 1]
  const LOOPBACK6: Text := [0, 0, 0, 0, 0, 0, 0, 0, 0, 0, 0, 0, 0, 0, 0, 1]

  /** Addresses that are only valid on the host or link. */
  predicate LocalScope(a: Address)
    requires a.Valid()
  {
    match a
    case IPv4(bytes) => bytes == LOOPBACK4
    case IPv6(bytes) => bytes == LOOPBACK6 || (bytes[0] == 0xFE && 0x80 <= bytes[1] < 0xC0)
    case Link(_) => false
    case Other(_) => false
  }

  /** The list entry for a node, if it gets one. */
  function EntryOf(node: Node, filterLocalScope: bool): Option<Entry>
    requires node.address.Some? ==> node.address.value.Valid()
  {
    match node.address
    case None => None
    case Some(a) =>
      if a.Other? || (filterLocalScope && LocalScope(a)) then None
      else
        var prefixlen :=
          if a.Link? then 0
          else if node.netmask.Some? then BitCount(node.netmask.value)
          else if a.IPv6? then 128 else 32;
        Some(Entry(node.name, a, prefixlen, node.flags))
  }

  /** The addresses getifaddrs() returns have the length of their family. */
  predicate ValidNodes(nodes: seq<Node>) {
    forall n :: n in nodes && n.address.Some? ==> n.address.value.Valid()
  }

  function Entries(nodes: seq<Node>, filterLocalScope: bool): seq<Entry>
    requires ValidNodes(nodes)
  {
    if nodes == [] then []
    else
      var k := |nodes| - 1;
      Entries(nodes[..k], filterLocalScope)
      + (match EntryOf(nodes[k], filterLocalScope) case None => [] case Some(e) => [e])
  }

  function Take(entries: seq<Entry>, n: nat): seq<Entry> {
    if |entries| <= n then entries else entries[..n]
  }

  lemma {:induction false} EntriesGrow(nodes: seq<Node>, filterLocalScope: bool, i: nat)
    requires ValidNodes(nodes)
    requires i <= |nodes|
    ensures Entries(nodes[..i], filterLocalScope) <= Entries(nodes, filterLocalScope)
    decreases |nodes| - i
  {
    if i == |nodes| {
      assert nodes[..i] == nodes;
    } else {
      EntriesGrow(nodes, filterLocalScope, i + 1);
      assert nodes[..i + 1][..i] == nodes[..i];
    }
  }

  /** The list holds the first entries, in the order of the nodes, and no more than its array. */
  method BuildList(nodes: seq<Node>, filterLocalScope: bool) returns (list: seq<Entry>)
    requires ValidNodes(nodes)
    ensures list == Take(Entries(nodes, filterLocalScope), MAX_ENTRIES)
    ensures list <= Entries(nodes, filterLocalScope)
    ensures |list| == if |Entries(nodes, filterLocalScope)| <= 1024 then |Entries(nodes, filterLocalScope)| else 1024
  {
    list := [];
    for i := 0 to |nodes|
      invariant list == Entries(nodes[..i], filterLocalScope) && |list| <= MAX_ENTRIES
    {
      var node := nodes[i];
      EntriesGrow(nodes, filterLocalScope, i);
      assert nodes[..i + 1][..i] == nodes[..i] && nodes[..i + 1][i] == node;
      if node.address.Some? {
        if |list| >= MAX_ENTRIES {
          break;
        }
        var a := node.address.value;
        if a.IPv4? || a.IPv6? {
          if filterLocalScope && LocalScope(a) {
            continue;
          }
          var prefixlen := if a.IPv6? then 128 else 32;
          if node.netmask.Some? {
            prefixlen := CountSetBits(node.netmask.value);
          }
          list := list + [Entry(node.name, a, prefixlen, node.flags)];
        } else if a.Link? {
          list := list + [Entry(node.name, a, 0, node.flags)];
        }
      }
    }
    assert nodes[..|nodes|] == nodes;
  }

  // ---- What is on the list ----

  lemma EntriesStep(nodes: seq<Node>, filterLocalScope: bool)
    requires ValidNodes(nodes) && nodes != []
    ensures var k := |nodes| - 1;
            ValidNodes(nodes[..k]) && ValidNodes([nodes[k]]) && nodes[k] in [nodes[k]] &&
            var own := EntryOf(nodes[k], filterLocalScope);
            Entries(nodes, filterLocalScope) == Entries(nodes[..k], filterLocalScope) + (if own.None? then [] else [own.value])
  {
    hide EntryOf;
  }

  lemma ValidParts(a: seq<Node>, b: seq<Node>)
    requires ValidNodes(a) && ValidNodes(b)
    ensures ValidNodes(a + b) && (b != [] ==> ValidNodes(b[..|b| - 1]))
  {}

  lemma {:induction false} EntriesConcat(a: seq<Node>, b: seq<Node>, filterLocalScope: bool)
    requires ValidNodes(a) && ValidNodes(b)
    ensures ValidNodes(a + b)
    ensures Entries(a + b, filterLocalScope) == Entries(a, filterLocalScope) + Entries(b, filterLocalScope)
    decreases |b|
  {
    hide EntryOf, Entries, ValidNodes;
    ValidParts(a, b);
    if b == [] {
      NoEntries(filterLocalScope);
      assert a + b == a;
    } else {
      var n := |b| - 1;
      assert (a + b)[..|a| + n] == a + b[..n] && (a + b)[|a| + n] == b[n];
      EntriesConcat(a, b[..n], filterLocalScope);
      EntriesStep(a + b, filterLocalScope);
      EntriesStep(b, filterLocalScope);
    }
  }

  lemma NoEntries(filterLocalScope: bool)
    ensures ValidNodes([]) && Entries([], filterLocalScope) == []
  {}

  /** The entries of a list with a node in the middle: `own` are the ones the node has. */
  predicate Lists(before: seq<Node>, node: Node, after: seq<Node>, filterLocalScope: bool, own: seq<Entry>)
    requires ValidNodes(before) && ValidNodes([node]) && ValidNodes(after)
  {
    assert ValidNodes(before + [node] + after);
    Entries(before + [node] + after, filterLocalScope) ==
    Entries(before, filterLocalScope) + own + Entries(after, filterLocalScope)
  }

  lemma ListsOwn(before: seq<Node>, node: Node, after: seq<Node>, filterLocalScope: bool)
    requires ValidNodes(before) && ValidNodes([node]) && ValidNodes(after)
    ensures node in [node]
    ensures var own := EntryOf(node, filterLocalScope);
            Lists(before, node, after, filterLocalScope, if own.None? then [] else [own.value])
  {
    hide EntryOf;
    assert node in [node];
    EntriesConcat(before + [node], after, filterLocalScope);
    EntriesConcat(before, [node], filterLocalScope);
    assert Entries([node][..0], filterLocalScope) == [];
  }

  /** An IPv4 address is listed with the prefix length of its netmask, or 32 without one; 127.0.0.1 can be filtered. */
  lemma IPv4IsListed(before: seq<Node>, name: Text, bytes: Text, prefixlen: nat, flags: nat, after: seq<Node>, filterLocalScope: bool)
    requires ValidNodes(before) && ValidNodes(after) && |bytes| == 4 && prefixlen <= 32
    ensures var a := IPv4(bytes);
            var masked, plain := Node(name, Some(a), Some(Netmask(prefixlen, 4)), flags), Node(name, Some(a), None, flags);
            if filterLocalScope && bytes == [127, 0, 0, 1]
            then Lists(before, masked, after, filterLocalScope, []) && Lists(before, plain, after, filterLocalScope, [])
            else
              && Lists(before, masked, after, filterLocalScope, [Entry(name, a, prefixlen, flags)])
              && Lists(before, plain, after, filterLocalScope, [Entry(name, a, 32, flags)])
  {
    hide Netmask, BitCount, Lists;
    NetmaskBits(prefixlen, 4);
    ListsOwn(before, Node(name, Some(IPv4(bytes)), Some(Netmask(prefixlen, 4)), flags), after, filterLocalScope);
    ListsOwn(before, Node(name, Some(IPv4(bytes)), None, flags), after, filterLocalScope);
  }

  /** An IPv6 address likewise, 128 without a netmask; ::1 and fe80::/10 can be filtered. */
  lemma IPv6IsListed(before: seq<Node>, name: Text, bytes: Text, prefixlen: nat, flags: nat, after: seq<Node>, filterLocalScope: bool)
    requires ValidNodes(before) && ValidNodes(after) && |bytes| == 16 && prefixlen <= 128
    ensures var a := IPv6(bytes);
            var masked, plain := Node(name, Some(a), Some(Netmask(prefixlen, 16)), flags), Node(name, Some(a), None, flags);
            if filterLocalScope && (bytes == [0, 0, 0, 0, 0, 0, 0, 0, 0, 0, 0, 0, 0, 0, 0, 1] || (bytes[0] == 254 && 128 <= bytes[1] <= 191))
            then Lists(before, masked, after, filterLocalScope, []) && Lists(before, plain, after, filterLocalScope, [])
            else
              && Lists(before, masked, after, filterLocalScope, [Entry(name, a, prefixlen, flags)])
              && Lists(before, plain, after, filterLocalScope, [Entry(name, a, 128, flags)])
  {
    hide Netmask, BitCount, Lists;
    NetmaskBits(prefixlen, 16);
    ListsOwn(before, Node(name, Some(IPv6(bytes)), Some(Netmask(prefixlen, 16)), flags), after, filterLocalScope);
    ListsOwn(before, Node(name, Some(IPv6(bytes)), None, flags), after, filterLocalScope);
  }

  /** A link-layer address is listed with prefix length 0, with and without the filter. */
  lemma LinkIsListed(before: seq<Node>, name: Text, bytes: Text, netmask: Option<Text>, flags: nat, after: seq<Node>, filterLocalScope: bool)
    requires ValidNodes(before) && ValidNodes(after)
    ensures Lists(before, Node(name, Some(Link(bytes)), netmask, flags), after, filterLocalScope, [Entry(name, Link(bytes), 0, flags)])
  {
    hide Lists;
    ListsOwn(before, Node(name, Some(Link(bytes)), netmask, flags), after, filterLocalScope);
  }

  /** Nodes without address and addresses of other families are not listed. */
  lemma OthersAreNotListed(before: seq<Node>, node: Node, after: seq<Node>, filterLocalScope: bool)
    requires ValidNodes(before) && ValidNodes([node]) && ValidNodes(after)
    requires node.address.None? || node.address.value.Other?
    ensures Lists(before, node, after, filterLocalScope, [])
  {
    hide Lists;
    ListsOwn(before, node, after, filterLocalScope);
  }
}
