/** Which bucket a request is charged to.

    Addresses are their bits, most significant first. Reading and writing them as text
    is the standard library's business and a parameter here. */
module ClientKey {
  import opened Text

  const KEY_PREFIX := 64

  type Bits32 = b: seq<bool> | |b| == 32 witness seq(32, _ => false)
  type Bits128 = b: seq<bool> | |b| == 128 witness seq(128, _ => false)

  datatype Addr = V4(bits4: Bits32) | V6(bits6: Bits128, zone: string)

  /** A masked prefix: the family and the bits that are fixed. */
  datatype Net = Net(v6: bool, fixed: seq<bool>)

  datatype Codec = Codec(parse: string -> Option<Addr>, parsePrefix: string -> Option<(Addr, nat)>,
                         show: Addr -> string, showNet: Net -> string)

  /** The address can be read back from its text. */
  predicate ReadBack(c: Codec, a: Addr) {
    c.parse(c.show(a)) == Some(a)
  }

  /** Text determines what it shows, for the addresses that are read and for IPv4. */
  ghost predicate Faithful(c: Codec) {
    && (forall s :: c.parse(s).Some? ==> ReadBack(c, c.parse(s).value))
    && (forall b :: ReadBack(c, V4(b)))
    && (forall n, m :: c.showNet(n) == c.showNet(m) ==> n == m)
    && (forall n, b :: c.showNet(n) != c.show(V4(b)))
  }

  function MappedPrefix(): (b: seq<bool>)
    ensures |b| == 96
  {
    seq(96, i => i >= 80)
  }

  predicate IsMapped(a: Addr) {
    a.V6? && MappedPrefix() <= a.bits6
  }

  function Unmap(a: Addr): Addr {
    if IsMapped(a) then V4(a.bits6[96..]) else a
  }

  predicate Covers(n: Net, a: Addr) {
    match a
    case V4(bits) => !n.v6 && n.fixed <= bits
    case V6(bits, zone) => n.v6 && zone == "" && n.fixed <= bits
  }

  function Host(a: Addr): Net {
    match a
    case V4(bits) => Net(false, bits)
    case V6(bits, _) => Net(true, bits)
  }

  function Masked(a: Addr, len: nat): Net {
    var n := Host(a);
    if len <= |n.fixed| then n.(fixed := n.fixed[..len]) else n
  }

  // ---- the trusted set ----

  function EntryNet(c: Codec, raw: string): Option<Net> {
    if '/' in raw then
      match c.parsePrefix(raw) { case None => None case Some(p) => Some(Masked(p.0, p.1)) }
    else
      match c.parse(raw) { case None => None case Some(a) => Some(Host(a)) }
  }

  predicate IsTrusted(trusted: seq<Net>, a: Addr) {
    exists n :: n in trusted && Covers(n, Unmap(a))
  }

  /** The entry names the address: one network prefix, or one host, of its family. */
  predicate Names(c: Codec, raw: string, b: Addr) {
    if '/' in raw then c.parsePrefix(raw).Some? && SharesPrefix(c.parsePrefix(raw).value.0, c.parsePrefix(raw).value.1, b)
    else c.parse(raw).Some? && SharesPrefix(c.parse(raw).value, 128, b)
  }

  predicate SharesPrefix(a: Addr, len: nat, b: Addr) {
    match (a, b)
    case (V4(x), V4(y)) => forall i :: 0 <= i < len && i < 32 ==> x[i] == y[i]
    case (V6(x, _), V6(y, _)) => forall i :: 0 <= i < len && i < 128 ==> x[i] == y[i]
    case _ => false
  }

  lemma CoversIff(a: Addr, len: nat, b: Addr)
    ensures Covers(Masked(a, len), b) <==> SharesPrefix(a, len, b) && (b.V6? ==> b.zone == "")
  {
    if a.V6? == b.V6? {
      var x, y := Host(a).fixed, Host(b).fixed;
      var n := if len <= |x| then len else |x|;
      assert Masked(a, len).fixed == x[..n];
      assert x[..n] <= y <==> forall i :: 0 <= i < n ==> x[i] == y[i];
    }
  }

  lemma EntryNetCovers(c: Codec, raw: string, b: Addr)
    ensures EntryNet(c, raw).None? <==> (if '/' in raw then c.parsePrefix(raw).None? else c.parse(raw).None?)
    ensures EntryNet(c, raw).Some? ==> (Covers(EntryNet(c, raw).value, b) <==> Names(c, raw, b) && (b.V6? ==> b.zone == ""))
  {
    if '/' in raw {
      if c.parsePrefix(raw).Some? {
        CoversIff(c.parsePrefix(raw).value.0, c.parsePrefix(raw).value.1, b);
      }
    } else if c.parse(raw).Some? {
      var a := c.parse(raw).value;
      CoversIff(a, 128, b);
      assert Host(a).fixed[..|Host(a).fixed|] == Host(a).fixed;
      assert Masked(a, 128) == Host(a);
    }
  }

  /** An address is trusted, by its IPv4 form if it has one, if and only if it has no zone
      and some entry names it. */
  lemma TrustedIff(c: Codec, entries: seq<string>, trusted: seq<Net>, b: Addr)
    requires forall n :: n in trusted <==> exists e :: e in entries && TrimSpace(e) != "" && EntryNet(c, TrimSpace(e)) == Some(n)
    requires forall e :: e in entries && TrimSpace(e) != "" ==> EntryNet(c, TrimSpace(e)).Some?
    ensures IsTrusted(trusted, b) <==>
            (Unmap(b).V6? ==> Unmap(b).zone == "") && exists e :: e in entries && TrimSpace(e) != "" && Names(c, TrimSpace(e), Unmap(b))
  {
    var u := Unmap(b);
    forall e | e in entries && TrimSpace(e) != ""
      ensures Covers(EntryNet(c, TrimSpace(e)).value, u) <==> Names(c, TrimSpace(e), u) && (u.V6? ==> u.zone == "")
    {
      EntryNetCovers(c, TrimSpace(e), u);
    }
  }

  /** A blank entry is skipped, an unreadable one is an error, and otherwise the trusted
      networks are exactly those written down. */
  method NewClientKeyer(c: Codec, entries: seq<string>) returns (trusted: Option<seq<Net>>)
    ensures trusted.None? <==> exists e :: e in entries && TrimSpace(e) != "" && EntryNet(c, TrimSpace(e)).None?
    ensures trusted.Some? ==> forall n ::
              n in trusted.value <==> exists e :: e in entries && TrimSpace(e) != "" && EntryNet(c, TrimSpace(e)) == Some(n)
  {
    var nets := [];
    for i := 0 to |entries|
      invariant forall e :: e in entries[..i] && TrimSpace(e) != "" ==> EntryNet(c, TrimSpace(e)).Some?
      invariant forall n :: n in nets <==> exists e :: e in entries[..i] && TrimSpace(e) != "" && EntryNet(c, TrimSpace(e)) == Some(n)
    {
      assert entries[..i + 1] == entries[..i] + [entries[i]];
      var raw := TrimSpace(entries[i]);
      if raw == "" {
        continue;
      }
      var net := EntryNet(c, raw);
      if net.None? {
        return None;
      }
      nets := nets + [net.value];
    }
    assert entries[..|entries|] == entries;
    return Some(nets);
  }

  /** The address lies in the network that address/len writes down. */
  predicate Within(a: Addr, len: nat, b: Addr) {
    a.V6? == b.V6? && len <= |Host(a).fixed| && Host(a).fixed[..len] <= Host(b).fixed
  }

  /** An entry trusts an address it names if and only if that address has no zone and is
      not an IPv4 address in mapped form. */
  lemma EntryTrustsIff(a: Addr, len: nat, b: Addr)
    requires Within(a, len, b)
    ensures IsTrusted([Masked(a, len)], b) <==> !IsMapped(b) && (b.V6? ==> b.zone == "")
  {
    assert Masked(a, len) in [Masked(a, len)];
    assert Masked(a, len).fixed == Host(a).fixed[..len];
  }

  /** In particular an entry that is one address trusts that very address if and only if
      it has no zone and is not mapped. */
  lemma HostTrustsItselfIff(a: Addr)
    ensures IsTrusted([Host(a)], a) <==> !IsMapped(a) && (a.V6? ==> a.zone == "")
  {
    var len := |Host(a).fixed|;
    assert Host(a).fixed[..len] == Host(a).fixed;
    assert Masked(a, len) == Host(a);
    EntryTrustsIff(a, len, a);
  }

  /** The network written down contains an address in mapped form. */
  predicate ReachesMapped(a: Addr, len: nat) {
    a.V6? && len <= 128 && a.bits6[..if len <= 96 then len else 96] <= MappedPrefix()
  }

  lemma MappedWithin(a: Addr, len: nat) returns (b: Addr)
    requires ReachesMapped(a, len)
    ensures Within(a, len, b) && IsMapped(b) && b.zone == ""
  {
    if len <= 96 {
      b := V6(MappedPrefix() + seq(32, _ => false), "");
      assert b.bits6[..len] == MappedPrefix()[..len] == a.bits6[..len];
      assert MappedPrefix() <= b.bits6;
    } else {
      b := V6(a.bits6, "");
      assert a.bits6[..96] == MappedPrefix();
    }
  }

  /** A network trusts all of its addresses without a zone if and only if none of them is
      in mapped form; so ::/0 does not trust mapped addresses, and a network written in
      mapped form trusts nobody. */
  lemma NetworkTrustsAllIff(a: Addr, len: nat)
    requires len <= |Host(a).fixed|
    ensures (forall b :: Within(a, len, b) && (b.V6? ==> b.zone == "") ==> IsTrusted([Masked(a, len)], b)) <==>
            !ReachesMapped(a, len)
  {
    if ReachesMapped(a, len) {
      var b := MappedWithin(a, len);
      EntryTrustsIff(a, len, b);
    } else {
      forall b | Within(a, len, b) && (b.V6? ==> b.zone == "")
        ensures IsTrusted([Masked(a, len)], b)
      {
        EntryTrustsIff(a, len, b);
        MappedIsReached(a, len, b);
      }
    }
  }

  lemma MappedIsReached(a: Addr, len: nat, b: Addr)
    requires Within(a, len, b)
    ensures IsMapped(b) ==> ReachesMapped(a, len)
  {
    if IsMapped(b) {
      var k := if len <= 96 then len else 96;
      assert a.bits6[..k] == a.bits6[..len][..k] == b.bits6[..len][..k] == b.bits6[..k];
      assert b.bits6[..k] == MappedPrefix()[..k];
    }
  }

  // ---- the bucket ----

  function BucketKey(c: Codec, addr: string): string {
    match c.parse(addr)
    case None => addr
    case Some(parsed) =>
      var a := Unmap(parsed);
      if a.V4? then c.show(a) else c.showNet(Masked(a, KEY_PREFIX))
  }

  /** An IPv4 address, written as one or as ::ffff:0:0/96 and its 32 bits: 80 bits zero,
      then 16 bits one. */
  predicate IsIPv4(a: Addr, bits: Bits32) {
    match a
    case V4(b) => b == bits
    case V6(b, _) => (forall i :: 0 <= i < 80 ==> !b[i]) && (forall i :: 80 <= i < 96 ==> b[i]) && b[96..] == bits
  }

  lemma UnmapIff(a: Addr, bits: Bits32)
    ensures Unmap(a) == V4(bits) <==> IsIPv4(a, bits)
    ensures IsMapped(a) <==> a.V6? && IsIPv4(a, a.bits6[96..])
  {
    if a.V6? {
      var p := MappedPrefix();
      assert p <= a.bits6 <==> forall i :: 0 <= i < 96 ==> a.bits6[i] == p[i];
    }
  }

  /** The same client as far as buckets go: one IPv4 address, or one IPv6 network of 64 bits. */
  ghost predicate SameBucket(a: Addr, b: Addr) {
    || (exists bits :: IsIPv4(a, bits) && IsIPv4(b, bits))
    || (a.V6? && b.V6? && !IsIPv4(a, a.bits6[96..]) && !IsIPv4(b, b.bits6[96..])
        && forall i :: 0 <= i < 64 ==> a.bits6[i] == b.bits6[i])
  }

  lemma SameBucketIff(a: Addr, b: Addr)
    ensures SameBucket(a, b) <==>
            match (Unmap(a), Unmap(b))
            case (V4(x), V4(y)) => x == y
            case (V6(x, _), V6(y, _)) => x[..KEY_PREFIX] == y[..KEY_PREFIX]
            case _ => false
  {
    forall bits: Bits32
      ensures (Unmap(a) == V4(bits) <==> IsIPv4(a, bits)) && (Unmap(b) == V4(bits) <==> IsIPv4(b, bits))
    {
      UnmapIff(a, bits);
      UnmapIff(b, bits);
    }
    if Unmap(a).V6? && Unmap(b).V6? {
      var x, y := a.bits6, b.bits6;
      assert x[..64] == y[..64] <==> forall i :: 0 <= i < 64 ==> x[i] == y[i];
    }
  }

  /** IPv4 clients share a bucket exactly when equal, mapped or not; IPv6 clients exactly
      when their /64 is; and the two families never share one. */
  lemma BucketsCoincide(c: Codec, s: string, t: string)
    requires Faithful(c) && c.parse(s).Some? && c.parse(t).Some?
    ensures BucketKey(c, s) == BucketKey(c, t) <==> SameBucket(c.parse(s).value, c.parse(t).value)
  {
    var a, b := Unmap(c.parse(s).value), Unmap(c.parse(t).value);
    SameBucketIff(c.parse(s).value, c.parse(t).value);
    if a.V4? && b.V4? {
      assert ReadBack(c, V4(a.bits4)) && ReadBack(c, V4(b.bits4));
    } else if a.V6? && b.V6? {
      assert c.showNet(Masked(a, KEY_PREFIX)) == c.showNet(Masked(b, KEY_PREFIX)) ==> Masked(a, KEY_PREFIX) == Masked(b, KEY_PREFIX);
    }
  }

  // ---- the forwarded hops ----

  /** A blank part is no hop. */
  function Field(part: string): seq<string> {
    var f := TrimSpace(part);
    if f == "" then [] else [f]
  }

  function HopsIn(value: string): seq<string> {
    FlatMap(Field, Split(value, ','))
  }

  /** All hops of the header values, in header order. */
  function Hops(values: seq<string>): seq<string> {
    FlatMap(HopsIn, values)
  }

  /** One value split in two at a comma gives the same hops. */
  lemma HopsInJoin(a: string, b: string)
    ensures HopsIn(a + "," + b) == HopsIn(a) + HopsIn(b)
  {
    SplitConcat(a, ',', b);
    FlatMapConcat(Field, Split(a, ','), Split(b, ','));
  }

  ghost predicate ReverseOf(a: seq<string>, b: seq<string>) {
    |a| == |b| && forall i :: 0 <= i < |a| ==> a[i] == b[|b| - 1 - i]
  }

  /** The inner loop: the non-blank parts of one value, appended. */
  method AppendFields(sofar: seq<string>, parts: seq<string>) returns (fields: seq<string>)
    ensures fields == sofar + FlatMap(Field, parts)
  {
    fields := sofar;
    for j := 0 to |parts|
      invariant fields == sofar + FlatMap(Field, parts[..j])
    {
      FlatMapSnoc(Field, parts[..j], parts[j]);
      assert parts[..j + 1] == parts[..j] + [parts[j]];
      var f := TrimSpace(parts[j]);
      if f != "" {
        fields := fields + [f];
      }
    }
    assert parts[..|parts|] == parts;
  }

  method CollectFields(values: seq<string>) returns (fields: seq<string>)
    ensures fields == Hops(values)
  {
    fields := [];
    for i := 0 to |values|
      invariant fields == Hops(values[..i])
    {
      FlatMapSnoc(HopsIn, values[..i], values[i]);
      assert values[..i + 1] == values[..i] + [values[i]];
      fields := AppendFields(fields, Split(values[i], ','));
    }
    assert values[..|values|] == values;
  }

  method ReverseForwardedFor(values: seq<string>) returns (out: seq<string>)
    ensures ReverseOf(out, Hops(values))
  {
    var fields := CollectFields(values);
    out := [];
    for i := |fields| downto 0
      invariant |out| == |fields| - i
      invariant forall k :: 0 <= k < |out| ==> out[k] == fields[|fields| - 1 - k]
    {
      out := out + [fields[i]];
    }
  }

  /** A hop that ends the walk: unreadable, or not a trusted proxy. */
  predicate Barrier(c: Codec, trusted: seq<Net>, hop: string) {
    c.parse(hop).None? || !IsTrusted(trusted, c.parse(hop).value)
  }

  /** The rightmost barrier, or -1. */
  function LastBarrier(c: Codec, trusted: seq<Net>, hops: seq<string>): (i: int)
    ensures -1 <= i < |hops|
    ensures i >= 0 ==> Barrier(c, trusted, hops[i])
    ensures forall j :: i < j < |hops| ==> !Barrier(c, trusted, hops[j])
  {
    if hops == [] then -1
    else if Barrier(c, trusted, hops[|hops| - 1]) then |hops| - 1
    else LastBarrier(c, trusted, hops[..|hops| - 1])
  }

  predicate FromProxy(c: Codec, trusted: seq<Net>, peer: string) {
    c.parse(peer).Some? && IsTrusted(trusted, c.parse(peer).value)
  }

  /** The client a request is charged to: the rightmost hop that is no trusted proxy, if
      it can be read and a trusted proxy vouches for it; otherwise the peer. */
  function KeyFor(c: Codec, trusted: seq<Net>, peer: string, hops: seq<string>): string {
    var i := LastBarrier(c, trusted, hops);
    if FromProxy(c, trusted, peer) && i >= 0 && c.parse(hops[i]).Some? then
      BucketKey(c, c.show(c.parse(hops[i]).value))
    else BucketKey(c, peer)
  }

  method KeyOf(c: Codec, trusted: seq<Net>, peer: string, values: seq<string>) returns (key: string)
    ensures key == KeyFor(c, trusted, peer, Hops(values))
  {
    if |trusted| == 0 {
      return BucketKey(c, peer);
    }
    var peerAddr := c.parse(peer);
    if peerAddr.None? || !IsTrusted(trusted, peerAddr.value) {
      return BucketKey(c, peer);
    }
    var reversed := ReverseForwardedFor(values);
    ghost var hops := Hops(values);
    for i := 0 to |reversed|
      invariant forall j :: |hops| - i <= j < |hops| ==> !Barrier(c, trusted, hops[j])
    {
      assert reversed[i] == hops[|hops| - 1 - i];
      var addr := c.parse(reversed[i]);
      if addr.None? {
        return BucketKey(c, peer);
      }
      if IsTrusted(trusted, addr.value) {
        continue;
      }
      return BucketKey(c, c.show(addr.value));
    }
    return BucketKey(c, peer);
  }

  // ---- what a client can forge ----

  /** Anything put in front: whole header values, and text before the first value. */
  function Forge(front: seq<string>, text: string, values: seq<string>): seq<string> {
    if values == [] then front + [text] else front + [text + "," + values[0]] + values[1..]
  }

  lemma HopsMerge(front: seq<string>, text: string, v: string, rest: seq<string>)
    ensures Hops(front + [text + "," + v] + rest) == Hops(front + [text]) + Hops([v] + rest)
  {
    HopsInJoin(text, v);
    FlatMapMerge(HopsIn, front, text, v, text + "," + v, rest);
  }

  lemma ForgedHops(front: seq<string>, text: string, values: seq<string>)
    ensures Hops(Forge(front, text, values)) == Hops(front + [text]) + Hops(values)
  {
    if values != [] {
      HopsMerge(front, text, values[0], values[1..]);
      assert [values[0]] + values[1..] == values;
    }
  }

  /** Without a trusted proxy the header has no effect. */
  lemma HeaderIgnored(c: Codec, trusted: seq<Net>, peer: string, hops: seq<string>)
    requires !FromProxy(c, trusted, peer)
    ensures KeyFor(c, trusted, peer, hops) == KeyFor(c, trusted, peer, [])
  {
  }

  ghost predicate HasBarrier(c: Codec, trusted: seq<Net>, hops: seq<string>) {
    exists hop :: hop in hops && Barrier(c, trusted, hop)
  }

  lemma LastBarrierIsLast(c: Codec, trusted: seq<Net>, hops: seq<string>, i: int)
    requires 0 <= i < |hops| && Barrier(c, trusted, hops[i])
    requires forall j :: i < j < |hops| ==> !Barrier(c, trusted, hops[j])
    ensures LastBarrier(c, trusted, hops) == i
  {
    var l := LastBarrier(c, trusted, hops);
    assert !(l < i) && !(i < l);
  }

  predicate TrustedHop(c: Codec, trusted: seq<Net>, hop: string) {
    c.parse(hop).Some? && IsTrusted(trusted, c.parse(hop).value)
  }

  /** Behind a trusted peer, the last hop that is no trusted proxy is charged if it can be
      read; if it cannot, if there is none, or if the peer is not trusted, the peer is. */
  lemma ChargedHop(c: Codec, trusted: seq<Net>, peer: string, hops: seq<string>, i: int)
    requires -1 <= i < |hops| && forall j :: i < j < |hops| ==> TrustedHop(c, trusted, hops[j])
    requires i >= 0 ==> !TrustedHop(c, trusted, hops[i])
    ensures KeyFor(c, trusted, peer, hops) ==
            if TrustedHop(c, trusted, peer) && i >= 0 && c.parse(hops[i]).Some? then BucketKey(c, c.show(c.parse(hops[i]).value))
            else BucketKey(c, peer)
  {
    forall j | i < j < |hops|
      ensures !Barrier(c, trusted, hops[j])
    {
      assert TrustedHop(c, trusted, hops[j]);
    }
    if i >= 0 {
      LastBarrierIsLast(c, trusted, hops, i);
    }
  }

  lemma FrontIsIgnored(c: Codec, trusted: seq<Net>, peer: string, front: seq<string>, hops: seq<string>)
    requires HasBarrier(c, trusted, hops)
    ensures KeyFor(c, trusted, peer, front + hops) == KeyFor(c, trusted, peer, hops)
  {
    var i := LastBarrier(c, trusted, hops);
    var all := front + hops;
    assert i >= 0;
    assert all[|front| + i] == hops[i];
    forall j | |front| + i < j < |all|
      ensures !Barrier(c, trusted, all[j])
    {
      assert all[j] == hops[j - |front|];
    }
    LastBarrierIsLast(c, trusted, all, |front| + i);
  }

  /** A field that survives splitting and trimming as it is. */
  predicate Clean(text: string) {
    text != "" && TrimSpace(text) == text && ',' !in text
  }

  /** An address whose text is one hop that reads back as the address. */
  predicate Legible(c: Codec, a: Addr) {
    Clean(c.show(a)) && ReadBack(c, a)
  }

  lemma CleanIsOneHop(text: string)
    requires Clean(text)
    ensures HopsIn(text) == [text]
  {
    SplitNone(text, ',');
    FlatMapOne(Field, text);
  }

  /** A client outside the trusted set whose bucket is not the peer's. */
  predicate Impersonates(c: Codec, trusted: seq<Net>, peer: string, text: string) {
    && Clean(text) && c.parse(text).Some? && Barrier(c, trusted, text)
    && BucketKey(c, c.show(c.parse(text).value)) != BucketKey(c, peer)
  }

  /** With no barrier among the genuine hops, the client names its own bucket. */
  lemma ForgerySucceeds(c: Codec, trusted: seq<Net>, peer: string, text: string, values: seq<string>)
    requires FromProxy(c, trusted, peer) && !HasBarrier(c, trusted, Hops(values))
    requires Clean(text) && c.parse(text).Some? && Barrier(c, trusted, text)
    ensures KeyFor(c, trusted, peer, Hops(Forge([], text, values))) == BucketKey(c, c.show(c.parse(text).value))
  {
    ForgedHops([], text, values);
    CleanIsOneHop(text);
    FlatMapOne(HopsIn, text);
    assert [] + [text] == [text];
    var all := [text] + Hops(values);
    assert forall j :: 0 < j < |all| ==> all[j] in Hops(values);
    LastBarrierIsLast(c, trusted, all, 0);
  }

  lemma ForgeryFails(c: Codec, trusted: seq<Net>, peer: string, front: seq<string>, text: string, values: seq<string>)
    requires HasBarrier(c, trusted, Hops(values))
    ensures KeyFor(c, trusted, peer, Hops(Forge(front, text, values))) == KeyFor(c, trusted, peer, Hops(values))
  {
    ForgedHops(front, text, values);
    FrontIsIgnored(c, trusted, peer, Hops(front + [text]), Hops(values));
  }

  /** What stands in front of a genuine barrier never matters; and where there is none,
      the key can be forged as soon as there is anyone to impersonate. */
  lemma UnforgeableIff(c: Codec, trusted: seq<Net>, peer: string, values: seq<string>)
    requires FromProxy(c, trusted, peer)
    requires exists text :: Impersonates(c, trusted, peer, text)
    ensures (forall front, text :: KeyFor(c, trusted, peer, Hops(Forge(front, text, values))) == KeyFor(c, trusted, peer, Hops(values)))
            <==> HasBarrier(c, trusted, Hops(values))
  {
    if HasBarrier(c, trusted, Hops(values)) {
      forall front, text
        ensures KeyFor(c, trusted, peer, Hops(Forge(front, text, values))) == KeyFor(c, trusted, peer, Hops(values))
      {
        ForgeryFails(c, trusted, peer, front, text, values);
      }
    } else {
      var text :| Impersonates(c, trusted, peer, text);
      ForgerySucceeds(c, trusted, peer, text, values);
      assert KeyFor(c, trusted, peer, Hops(values)) == BucketKey(c, peer);
    }
  }

  // ---- a whole route ----

  /** What a proxy does: it adds the address it was contacted from at the right end, to
      the last value or as a value of its own. */
  ghost predicate Appends(before: seq<string>, seen: string, after: seq<string>) {
    || after == before + [seen]
    || (before != [] && after == before[..|before| - 1] + [before[|before| - 1] + "," + (" " + seen)])
  }

  lemma SpaceBefore(seen: string)
    requires Clean(seen)
    ensures HopsIn(" " + seen) == [seen]
  {
    SplitNone(" " + seen, ',');
    assert (" " + seen)[1..] == seen;
    assert TrimLeft(" " + seen, IsSpace) == TrimLeft(seen, IsSpace);
    FlatMapOne(Field, " " + seen);
  }

  lemma AppendedText(before: seq<string>, seen: string)
    requires Clean(seen) && before != []
    ensures Hops(before[..|before| - 1] + [before[|before| - 1] + "," + (" " + seen)]) == Hops(before) + [seen]
  {
    var front, v := before[..|before| - 1], before[|before| - 1];
    calc {
      Hops(front + [v + "," + (" " + seen)]);
      { FlatMapSnoc(HopsIn, front, v + "," + (" " + seen)); }
      Hops(front) + HopsIn(v + "," + (" " + seen));
      { HopsInJoin(v, " " + seen); SpaceBefore(seen); }
      Hops(front) + (HopsIn(v) + [seen]);
      Hops(front) + HopsIn(v) + [seen];
    }
  }

  lemma AppendedHop(before: seq<string>, seen: string, after: seq<string>)
    requires Clean(seen) && Appends(before, seen, after)
    ensures Hops(after) == Hops(before) + [seen]
  {
    if after == before + [seen] {
      FlatMapSnoc(HopsIn, before, seen);
      CleanIsOneHop(seen);
    } else {
      AppendedText(before, seen);
    }
  }

  /** The request passes `route` in order, each proxy appending where it came from;
      `headers[i]` is what reaches the i-th proxy. */
  ghost predicate Forwarded(c: Codec, client: Addr, route: seq<Addr>, headers: seq<seq<string>>) {
    && |route| > 0 && |headers| == |route| + 1
    && (forall i :: 0 <= i < |route| ==> Appends(headers[i], c.show(if i == 0 then client else route[i - 1]), headers[i + 1]))
  }

  lemma PastProxy(c: Codec, trusted: seq<Net>, hops: seq<string>, hop: string)
    ensures LastBarrier(c, trusted, hops + [hop]) ==
            if Barrier(c, trusted, hop) then |hops| else LastBarrier(c, trusted, hops)
  {
    assert (hops + [hop])[..|hops|] == hops;
  }

  /** The walk through these values stops at the client's own address. */
  predicate EndsAt(c: Codec, trusted: seq<Net>, client: Addr, values: seq<string>) {
    var i := LastBarrier(c, trusted, Hops(values));
    i >= 0 && Hops(values)[i] == c.show(client)
  }

  lemma ClientHop(c: Codec, trusted: seq<Net>, client: Addr, before: seq<string>, after: seq<string>)
    requires !IsTrusted(trusted, client) && Legible(c, client)
    requires Appends(before, c.show(client), after)
    ensures EndsAt(c, trusted, client, after)
  {
    AppendedHop(before, c.show(client), after);
    PastProxy(c, trusted, Hops(before), c.show(client));
  }

  lemma ProxyHop(c: Codec, trusted: seq<Net>, client: Addr, proxy: Addr, before: seq<string>, after: seq<string>)
    requires IsTrusted(trusted, proxy) && Legible(c, proxy)
    requires Appends(before, c.show(proxy), after) && EndsAt(c, trusted, client, before)
    ensures EndsAt(c, trusted, client, after)
  {
    AppendedHop(before, c.show(proxy), after);
    PastProxy(c, trusted, Hops(before), c.show(proxy));
  }

  lemma {:induction false} RouteKey(c: Codec, trusted: seq<Net>, client: Addr, route: seq<Addr>, headers: seq<seq<string>>, i: nat)
    requires Forwarded(c, client, route, headers)
    requires !IsTrusted(trusted, client) && Legible(c, client)
    requires forall p :: p in route ==> IsTrusted(trusted, p) && Legible(c, p)
    requires 1 <= i <= |route|
    ensures EndsAt(c, trusted, client, headers[i])
  {
    if i == 1 {
      ClientHop(c, trusted, client, headers[0], headers[1]);
    } else {
      RouteKey(c, trusted, client, route, headers, i - 1);
      ProxyHop(c, trusted, client, route[i - 2], headers[i - 1], headers[i]);
    }
  }

  /** However the client forges the header and whichever trusted proxies pass the request
      on, it is charged to the bucket it would be charged to when it connects itself. */
  lemma ChargedToClient(c: Codec, trusted: seq<Net>, client: Addr, route: seq<Addr>, headers: seq<seq<string>>, forged: seq<string>)
    requires Forwarded(c, client, route, headers)
    requires !IsTrusted(trusted, client) && Legible(c, client)
    requires forall p :: p in route ==> IsTrusted(trusted, p) && Legible(c, p)
    ensures KeyFor(c, trusted, c.show(route[|route| - 1]), Hops(headers[|route|])) ==
            KeyFor(c, trusted, c.show(client), Hops(forged))
  {
    RouteKey(c, trusted, client, route, headers, |route|);
    var proxy := route[|route| - 1];
    assert Legible(c, client) && Legible(c, proxy);
  }
}
