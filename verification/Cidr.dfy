/** Trusted proxies: CIDR membership by masking, for either address width. */
module Cidr {
  import opened Prelude
  import opened Arithmetic

  /** An address: its family and its bits as an unsigned number. */
  datatype Address = V4(bits: nat) | V6(bits: nat) {
    function Width(): nat {
      if V4? then 32 else 128
    }
  }

  type IpAddr = a: Address | a.bits < Pow2(a.Width()) witness V4(0)

  datatype Network = Network(address: IpAddr, prefix: nat)

  type TrustedProxy = n: Network | n.prefix <= n.address.Width() witness Network(V4(0), 0)

  /** The prefix bounds of `TrustedProxy::parse`: a bare address is a network of one. */
  function MakeProxy(address: IpAddr, prefix: Option<nat>): (r: Option<TrustedProxy>)
    ensures r.Some? <==> prefix.None? || prefix.value <= address.Width()
    ensures r.Some? ==> r.value.address == address && (prefix.Some? ==> r.value.prefix == prefix.value)
    ensures prefix.None? ==> forall ip: IpAddr :: Contains(r.value, ip) <==> ip == address
  {
    match prefix
    case None =>
      var proxy: TrustedProxy := Network(address, address.Width());
      HostNetwork(proxy);
      Some(proxy)
    case Some(p) => if p > address.Width() then None else Some(Network(address, p))
  }

  /** A full-length prefix holds its own address only. */
  lemma HostNetwork(proxy: TrustedProxy)
    requires proxy.prefix == proxy.address.Width()
    ensures forall ip: IpAddr :: Contains(proxy, ip) <==> ip == proxy.address
  {
    forall ip: IpAddr
      ensures Contains(proxy, ip) <==> ip == proxy.address
    {
      ContainsIffSameBlock(proxy, ip);
      assert BlockSize(proxy) == 1;
    }
  }

  /** Bitwise and of unsigned numbers. */
  function And(a: nat, b: nat): nat
    decreases a
  {
    if a == 0 || b == 0 then 0 else a % 2 * (b % 2) + 2 * And(a / 2, b / 2)
  }

  /** `MAX << (width - prefix)` in an unsigned integer of the given width, 0 for the empty prefix. */
  function PrefixMask(width: nat, prefix: nat): nat
    requires prefix <= width
  {
    if prefix == 0 then 0
    else (Pow2(width) - 1) * Pow2(width - prefix) % Pow2(width)
  }

  /** `contains`. */
  predicate Contains(proxy: TrustedProxy, ip: IpAddr) {
    if proxy.address.V4? != ip.V4? then false
    else
      var mask := PrefixMask(ip.Width(), proxy.prefix);
      And(proxy.address.bits, mask) == And(ip.bits, mask)
  }

  lemma {:induction false} PowAdd(a: nat, b: nat)
    ensures Pow2(a + b) == Pow2(a) * Pow2(b)
  {
    if a > 0 {
      PowAdd(a - 1, b);
      assert Pow2(a) * Pow2(b) == 2 * (Pow2(a - 1) * Pow2(b));
    } else {
      assert Pow2(0) * Pow2(b) == Pow2(b);
    }
  }

  /** The mask is ones above the host bits. */
  lemma MaskIs(width: nat, prefix: nat)
    requires prefix <= width
    ensures Pow2(width - prefix) <= Pow2(width)
    ensures PrefixMask(width, prefix) == Pow2(width) - Pow2(width - prefix)
  {
    var w, h := Pow2(width), Pow2(width - prefix);
    PowAdd(prefix, width - prefix);
    ProductAtLeast(Pow2(prefix), h);
    if prefix > 0 {
      ShiftedOnes(w, h);
      QuotientRemainder((w - 1) * h, w, h - 1, w - h);
    }
  }

  lemma ShiftedOnes(w: nat, h: nat)
    requires w > 0 && h > 0
    ensures (w - 1) * h == (h - 1) * w + (w - h)
  {
  }

  /** Masking with ones above the low `k` bits clears exactly those bits. */
  lemma {:induction false} AndMask(a: nat, k: nat, width: nat)
    requires k <= width && a < Pow2(width)
    ensures Pow2(k) <= Pow2(width)
    ensures And(a, Pow2(width) - Pow2(k)) == a - a % Pow2(k)
    decreases width
  {
    hide And;
    PowMonotone(k, width);
    if k == 0 {
      AndOnes(a, width);
    } else {
      var h, w := Pow2(k - 1), Pow2(width - 1);
      AndMask(a / 2, k - 1, width - 1);
      AndMaskHalves(a, h, w - h);
      assert Pow2(k) == 2 * h && Pow2(width) == 2 * w;
      hide Pow2;
      assert And(a, 2 * (w - h)) == a - a % (2 * h);
    }
  }

  lemma AndMaskHalves(a: nat, h: nat, high: nat)
    requires h > 0 && And(a / 2, high) == a / 2 - a / 2 % h
    ensures And(a, 2 * high) == a - a % (2 * h)
  {
    hide And;
    AndEven(a, high);
    LowBits(a, h);
    Halved(a, a / 2 % h, a % (2 * h), And(a, 2 * high));
  }

  lemma Halved(a: nat, low: nat, remainder: nat, masked: nat)
    requires masked == 2 * (a / 2 - low) && remainder == 2 * low + a % 2
    ensures masked == a - remainder
  {
  }

  lemma LowBits(a: nat, h: nat)
    requires h > 0
    ensures a % (2 * h) == 2 * (a / 2 % h) + a % 2
  {
    var q, r := a / 2 / h, a / 2 % h;
    assert a / 2 == q * h + r;
    assert q * (2 * h) == 2 * (q * h);
    QuotientRemainder(a, 2 * h, q, 2 * r + a % 2);
  }

  lemma AndEven(a: nat, half: nat)
    ensures And(a, 2 * half) == 2 * And(a / 2, half)
  {
    if a != 0 && half != 0 {
      assert 2 * half % 2 == 0 && 2 * half / 2 == half;
    }
  }

  lemma AndOdd(a: nat, half: nat)
    requires half > 0
    ensures And(a, 2 * half - 1) == a % 2 + 2 * And(a / 2, half - 1)
  {
    if a != 0 {
      assert (2 * half - 1) % 2 == 1 && (2 * half - 1) / 2 == half - 1;
    }
  }

  lemma {:induction false} AndOnes(a: nat, width: nat)
    requires a < Pow2(width)
    ensures And(a, Pow2(width) - 1) == a
  {
    if width > 0 {
      AndOdd(a, Pow2(width - 1));
      hide And;
      AndOnes(a / 2, width - 1);
    }
  }

  lemma {:induction false} PowMonotone(a: nat, b: nat)
    requires a <= b
    ensures Pow2(a) <= Pow2(b)
  {
    if a < b {
      PowMonotone(a, b - 1);
    }
  }

  /** The number of addresses in a network. */
  function BlockSize(proxy: TrustedProxy): (size: nat)
    ensures size > 0
  {
    Pow2(proxy.address.Width() - proxy.prefix)
  }

  lemma SameMultiple(a: nat, b: nat, h: nat)
    requires h > 0
    ensures a - a % h == b - b % h <==> a / h == b / h
  {
    assert a - a % h == a / h * h;
    assert b - b % h == b / h * h;
    CancelFactor(a / h, b / h, h);
  }

  /** CIDR meaning (section 3.1 of RFC 4632): a network contains the addresses of its family that agree with it
      after dropping the low width - prefix bits. */
  lemma ContainsIffSameBlock(proxy: TrustedProxy, ip: IpAddr)
    ensures Contains(proxy, ip) <==>
            proxy.address.V4? == ip.V4? && proxy.address.bits / BlockSize(proxy) == ip.bits / BlockSize(proxy)
  {
    var width := proxy.address.Width();
    var k := width - proxy.prefix;
    if proxy.address.V4? == ip.V4? {
      MaskIs(width, proxy.prefix);
      AndMask(proxy.address.bits, k, width);
      AndMask(ip.bits, k, width);
      SameMultiple(proxy.address.bits, ip.bits, BlockSize(proxy));
    }
  }

  /** Dividing by a larger power of two is dividing by a smaller one first. */
  lemma DivideFurther(a: nat, k: nat, extra: nat)
    ensures a / Pow2(k + extra) == a / Pow2(k) / Pow2(extra)
  {
    PowAdd(k, extra);
    DivideTwice(a, Pow2(k), Pow2(extra));
  }

  /** Any two networks of one family are nested or disjoint. */
  lemma NestedOrDisjoint(wide: TrustedProxy, narrow: TrustedProxy)
    requires wide.address.V4? == narrow.address.V4? && wide.prefix <= narrow.prefix
    ensures (forall ip: IpAddr :: Contains(narrow, ip) ==> Contains(wide, ip))
            || (forall ip: IpAddr :: Contains(narrow, ip) ==> !Contains(wide, ip))
  {
    var k := narrow.address.Width() - narrow.prefix;
    var extra := narrow.prefix - wide.prefix;
    DivideFurther(narrow.address.bits, k, extra);
    forall ip: IpAddr | Contains(narrow, ip)
      ensures Contains(wide, ip) <==> Contains(wide, narrow.address)
    {
      ContainsIffSameBlock(narrow, ip);
      ContainsIffSameBlock(wide, ip);
      ContainsIffSameBlock(wide, narrow.address);
      DivideFurther(ip.bits, k, extra);
    }
  }

  /** `is_trusted`. */
  predicate IsTrusted(entries: seq<TrustedProxy>, ip: IpAddr) {
    exists i :: 0 <= i < |entries| && Contains(entries[i], ip)
  }

  /** An address is trusted exactly when it lies in the block of some entry of its family. */
  lemma TrustedIff(entries: seq<TrustedProxy>, ip: IpAddr)
    ensures IsTrusted(entries, ip) <==>
            exists proxy :: && proxy in entries && proxy.address.V4? == ip.V4?
                            && proxy.address.bits / BlockSize(proxy) == ip.bits / BlockSize(proxy)
  {
    hide Contains, BlockSize;
    forall proxy | proxy in entries
      ensures Contains(proxy, ip) <==>
              proxy.address.V4? == ip.V4? && proxy.address.bits / BlockSize(proxy) == ip.bits / BlockSize(proxy)
    {
      ContainsIffSameBlock(proxy, ip);
    }
    if proxy :| && proxy in entries && proxy.address.V4? == ip.V4?
                && proxy.address.bits / BlockSize(proxy) == ip.bits / BlockSize(proxy) {
      var i :| 0 <= i < |entries| && entries[i] == proxy;
      assert Contains(entries[i], ip);
    }
    if i :| 0 <= i < |entries| && Contains(entries[i], ip) {
      assert entries[i] in entries;
    }
  }

  /** Trust is monotone in the list, and an entry lying inside a wider one changes nothing. */
  lemma CoveredEntryIsRedundant(entries: seq<TrustedProxy>, narrow: TrustedProxy, wide: TrustedProxy, ip: IpAddr)
    ensures IsTrusted(entries, ip) ==> IsTrusted(entries + [narrow], ip)
    ensures wide in entries && wide.prefix <= narrow.prefix && Contains(wide, narrow.address) ==>
              (IsTrusted(entries + [narrow], ip) <==> IsTrusted(entries, ip))
  {
    hide Contains;
    if i :| 0 <= i < |entries| && Contains(entries[i], ip) {
      assert (entries + [narrow])[i] == entries[i];
    }
    if wide in entries && wide.prefix <= narrow.prefix && Contains(wide, narrow.address) && Contains(narrow, ip) {
      ContainsIffSameBlock(wide, narrow.address);
      ContainsIffSameBlock(narrow, narrow.address);
      NestedOrDisjoint(wide, narrow);
    }
  }
}
