/**
 * Mechanisms (section 5 of RFC 7208) and modifiers (section 6): the words of
 * a record and their text.
 */
module Terms {
  import opened Wrappers
  import opened Text
  import opened Domains

  datatype IPVersion = V4 | V6

  /**
   * A network in CIDR form: its version, the text of its base address, its
   * prefix length, and `maskBits`, the value the address library reports as
   * the address's netmask bits (the full width unless the address is itself
   * a netmask).
   */
  datatype IPNet = IPNet(version: IPVersion, address: string, prefix: nat, maskBits: nat)

  datatype Mechanism =
    | All
    | Include(domain: Domain)
    | Exists(domain: Domain)
    | A(target: Option<Domain>, ipv4Prefix: nat, ipv6Prefix: nat)
    | MX(target: Option<Domain>, ipv4Prefix: nat, ipv6Prefix: nat)
    | Network(net: IPNet)

  /** `a` and `mx` with their default prefix lengths. */
  function DefaultA(target: Option<Domain>): (r: Mechanism) { A(target, 32, 128) }
  function DefaultMX(target: Option<Domain>): (r: Mechanism) { MX(target, 32, 128) }

  datatype Modifier = Redirect(domain: Domain) | Exp(domain: Domain)

  // ---------------------------------------------------------------------
  // Text

  /** `__DomainMechanism._str`: a colon and the domain. */
  function DomainArgument(d: Domain): (r: string)
    ensures r != [] && r[0] == ':'
  {
    ":" + DomainText(d)
  }

  function DomainPart(target: Option<Domain>): (r: string)
  {
    if target.Some? then ":" + DomainText(target.value) else ""
  }

  function V4Part(v4: nat): (r: string)
  {
    if v4 != 32 then "/" + Decimal(v4) else ""
  }

  function V6Part(v6: nat): (r: string)
  {
    if v6 != 128 then "//" + Decimal(v6) else ""
  }

  /**
   * What follows `a` or `mx`: `:domain` when a domain is given, `/n` when
   * the IPv4 prefix is not 32, `//m` when the IPv6 prefix is not 128.
   */
  function CidrSuffix(target: Option<Domain>, v4: nat, v6: nat): (r: string)
    ensures r == [] <==> target.None? && v4 == 32 && v6 == 128
    ensures r == [] || r[0] == ':' || r[0] == '/'
  {
    DomainPart(target) + V4Part(v4) + V6Part(v6)
  }

  /** `__Cidr._str`, which appends each present part in turn. */
  method BuildCidrSuffix(target: Option<Domain>, v4: nat, v6: nat) returns (r: string)
    ensures r == CidrSuffix(target, v4, v6)
  {
    r := "";
    if target.Some? {
      var text := RenderDomain(target.value);
      r := r + ":" + text;
    }
    ghost var d := r;
    assert d == DomainPart(target);
    if v4 != 32 {
      var digits := Decimal(v4);
      r := r + "/" + digits;
      assert r == d + ("/" + digits);
    }
    ghost var dv4 := r;
    assert dv4 == d + V4Part(v4);
    if v6 != 128 {
      var digits := Decimal(v6);
      r := r + "//" + digits;
      assert r == dv4 + ("//" + digits);
    } else {
      assert r == dv4 + "";
    }
    assert r == d + V4Part(v4) + V6Part(v6);
    CidrSuffixUnfold(target, v4, v6);
  }

  lemma CidrSuffixUnfold(target: Option<Domain>, v4: nat, v6: nat)
    ensures CidrSuffix(target, v4, v6) == DomainPart(target) + V4Part(v4) + V6Part(v6)
  {
  }

  function VersionDigit(v: IPVersion): (r: char)
  {
    if v == V4 then '4' else '6'
  }

  /** `/prefix` unless the prefix equals the address's netmask bits. */
  function NetSuffix(n: IPNet): (r: string)
    ensures r == "" <==> n.prefix == n.maskBits
    ensures r == "" || r[0] == '/'
  {
    if n.prefix != n.maskBits then "/" + Decimal(n.prefix) else ""
  }

  /**
   * A mechanism's text starts with a lower-case letter, never with one of
   * the qualifier symbols a directive may put in front of it.
   */
  function MechanismText(m: Mechanism): (r: string)
    ensures r != [] && 'a' <= r[0] <= 'z'
  {
    match m
    case All => "all"
    case Include(d) => "include" + DomainArgument(d)
    case Exists(d) => "exists" + DomainArgument(d)
    case A(t, v4, v6) => "a" + CidrSuffix(t, v4, v6)
    case MX(t, v4, v6) => "mx" + CidrSuffix(t, v4, v6)
    case Network(n) => "ip" + [VersionDigit(n.version)] + ":" + n.address + NetSuffix(n)
  }

  function ModifierName(m: Modifier): (r: string)
  {
    if m.Redirect? then "redirect" else "exp"
  }

  /** `Modifier._str`: an equals sign and the domain. */
  function ModifierArgument(m: Modifier): (r: string)
    ensures r != [] && r[0] == '='
  {
    "=" + DomainText(m.domain)
  }

  function ModifierText(m: Modifier): (r: string)
    ensures |r| > |ModifierName(m)| && r[|ModifierName(m)|] == '='
  {
    ModifierName(m) + ModifierArgument(m)
  }

  // ---------------------------------------------------------------------
  // Reading the text back

  /** The characters of a mechanism or modifier name in RFC 7208. */
  predicate NameChar(c: char)
  {
    'a' <= c <= 'z' || 'A' <= c <= 'Z' || '0' <= c <= '9' || c == '-' || c == '_' || c == '.'
  }

  /** Length of the name at the start of `s`. */
  function NameRun(s: string): (n: nat)
    ensures n <= |s|
    decreases |s|
  {
    if s == [] || !NameChar(s[0]) then 0 else 1 + NameRun(s[1..])
  }

  lemma {:induction false} NameRunOver(name: string, rest: string)
    requires forall k :: 0 <= k < |name| ==> NameChar(name[k])
    requires rest == [] || !NameChar(rest[0])
    ensures NameRun(name + rest) == |name|
    decreases |name|
  {
    if name == [] {
      assert name + rest == rest;
    } else {
      NameRunOver(name[1..], rest);
      assert (name + rest)[1..] == name[1..] + rest;
    }
  }

  /** The name a mechanism is written with. */
  function Keyword(m: Mechanism): (r: string)
  {
    match m
    case All => "all"
    case Include(_) => "include"
    case Exists(_) => "exists"
    case A(_, _, _) => "a"
    case MX(_, _, _) => "mx"
    case Network(n) => "ip" + [VersionDigit(n.version)]
  }

  /** What a mechanism's text holds after its name. */
  function Argument(m: Mechanism): (r: string)
  {
    match m
    case All => ""
    case Include(d) => DomainArgument(d)
    case Exists(d) => DomainArgument(d)
    case A(t, v4, v6) => CidrSuffix(t, v4, v6)
    case MX(t, v4, v6) => CidrSuffix(t, v4, v6)
    case Network(n) => ":" + n.address + NetSuffix(n)
  }

  /**
   * A mechanism's text is its name followed by its argument, and the name
   * token of RFC 7208 ends exactly where the argument starts (`:`, `/` or
   * the end of the text).
   */
  lemma MechanismTokens(m: Mechanism)
    ensures MechanismText(m) == Keyword(m) + Argument(m)
    ensures NameRun(MechanismText(m)) == |Keyword(m)|
  {
    KeywordShape(m);
    KeywordChars(m);
    ArgumentStart(m);
    NameRunOver(Keyword(m), Argument(m));
  }

  lemma KeywordShape(m: Mechanism)
    ensures MechanismText(m) == Keyword(m) + Argument(m)
  {
    match m
    case Network(n) =>
      assert MechanismText(m) == Keyword(m) + (":" + n.address + NetSuffix(n));
    case _ =>
  }

  lemma KeywordChars(m: Mechanism)
    ensures forall k :: 0 <= k < |Keyword(m)| ==> NameChar(Keyword(m)[k])
  {
    var w := Keyword(m);
    forall k | 0 <= k < |w| ensures NameChar(w[k]) {
      match m
      case All => assert w == "all";
      case Include(_) => assert w == "include";
      case Exists(_) => assert w == "exists";
      case A(_, _, _) => assert w == "a";
      case MX(_, _, _) => assert w == "mx";
      case Network(n) => assert w == ['i', 'p', VersionDigit(n.version)];
    }
  }

  lemma ArgumentStart(m: Mechanism)
    ensures Argument(m) == [] || Argument(m)[0] == ':' || Argument(m)[0] == '/'
  {
  }

  /** A modifier's text is its name, `=`, and its domain; the name token stops at the `=`. */
  lemma ModifierTokens(m: Modifier)
    ensures ModifierText(m) == ModifierName(m) + ("=" + DomainText(m.domain))
    ensures NameRun(ModifierText(m)) == |ModifierName(m)|
  {
    var name, rest := ModifierName(m), ModifierArgument(m);
    assert rest[0] == '=';
    ModifierNameChars(m);
    NameRunOver(name, rest);
  }

  lemma ModifierNameChars(m: Modifier)
    ensures forall k :: 0 <= k < |ModifierName(m)| ==> NameChar(ModifierName(m)[k])
  {
    var w := ModifierName(m);
    forall k | 0 <= k < |w| ensures NameChar(w[k]) {
      if m.Redirect? {
        assert w == "redirect";
      } else {
        assert w == "exp";
      }
    }
  }

  /** The parts of an `a` or `mx` suffix as read back from its text. */
  datatype CidrFields = CidrFields(domain: Option<string>, v4: nat, v6: nat)

  function ReadNumber(s: string): (r: nat)
  {
    DigitsValue(s[..DigitRun(s)])
  }

  /** Reads `[:domain][/n][//m]`, taking the domain up to the first `/`. */
  function ParseCidr(s: string): (r: CidrFields)
  {
    if s != [] && s[0] == ':' then
      var domain := Before(s[1..], '/');
      ParseLengths(Some(domain), s[1 + |domain|..])
    else ParseLengths(None, s)
  }

  function ParseLengths(domain: Option<string>, rest: string): (r: CidrFields)
  {
    if |rest| >= 2 && rest[..2] == "//" then CidrFields(domain, 32, ReadNumber(rest[2..]))
    else if rest != [] && rest[0] == '/' then
      var n := DigitRun(rest[1..]);
      var after := rest[1..][n..];
      CidrFields(domain, DigitsValue(rest[1..][..n]), if |after| >= 2 then ReadNumber(after[2..]) else 128)
    else CidrFields(domain, 32, 128)
  }

  lemma ReadDecimal(n: nat)
    ensures ReadNumber(Decimal(n)) == n
  {
    assert Decimal(n) + "" == Decimal(n);
    DecimalRun(n, "");
    assert Decimal(n)[..|Decimal(n)|] == Decimal(n);
    DecimalDigits(n);
  }

  lemma ParseLengthsV6Only(domain: Option<string>, v6: nat)
    ensures ParseLengths(domain, V6Part(v6)) == CidrFields(domain, 32, v6)
  {
    if v6 != 128 {
      var rest := V6Part(v6);
      assert rest[..2] == "//";
      assert rest[2..] == Decimal(v6);
      ReadDecimal(v6);
    }
  }

  /** The optional IPv6 part is read back from what follows the IPv4 digits. */
  lemma V6Tail(v6: nat)
    ensures var t := V6Part(v6); (if |t| >= 2 then ReadNumber(t[2..]) else 128) == v6
  {
    if v6 != 128 {
      assert V6Part(v6)[2..] == Decimal(v6);
      ReadDecimal(v6);
    }
  }

  /** A slash followed by a digit starts the IPv4 length. */
  lemma ParseLengthsSlash(domain: Option<string>, body: string)
    requires body != [] && IsDigit(body[0])
    ensures var n := DigitRun(body); var after := body[n..];
      ParseLengths(domain, "/" + body) ==
      CidrFields(domain, DigitsValue(body[..n]), if |after| >= 2 then ReadNumber(after[2..]) else 128)
  {
    var rest := "/" + body;
    assert rest[1..] == body;
    assert rest[..2] != "//" by {
      assert rest[..2][1] == body[0];
    }
  }

  lemma ParseLengthsV4(domain: Option<string>, v4: nat, v6: nat)
    requires v4 != 32
    ensures ParseLengths(domain, V4Part(v4) + V6Part(v6)) == CidrFields(domain, v4, v6)
  {
    var digits, tail := Decimal(v4), V6Part(v6);
    assert V4Part(v4) + tail == "/" + (digits + tail);
    assert tail == [] || tail[0] == '/';
    DecimalDigits(v4);
    DecimalRun(v4, tail);
    ParseLengthsSlash(domain, digits + tail);
    V6Tail(v6);
  }

  lemma ParseLengthsText(domain: Option<string>, v4: nat, v6: nat)
    ensures ParseLengths(domain, V4Part(v4) + V6Part(v6)) == CidrFields(domain, v4, v6)
  {
    if v4 == 32 {
      assert V4Part(v4) + V6Part(v6) == V6Part(v6);
      ParseLengthsV6Only(domain, v6);
    } else {
      ParseLengthsV4(domain, v4, v6);
    }
  }

  /** The prefix lengths' text is empty or starts with a slash. */
  lemma LengthsStart(v4: nat, v6: nat)
    ensures var l := V4Part(v4) + V6Part(v6); l == [] || l[0] == '/'
  {
    var a, b := V4Part(v4), V6Part(v6);
    assert a == [] || a[0] == '/';
    assert b == [] || b[0] == '/';
    if a != [] {
      assert (a + b)[0] == a[0];
    } else {
      assert a + b == b;
    }
  }

  lemma BeforeSlash(a: string, b: string)
    requires '/' !in a && (b == [] || b[0] == '/')
    ensures Before(a + b, '/') == a
  {
    if b == [] {
      assert a + b == a;
    } else {
      var s := a + b;
      assert s[|a|] == '/';
      assert s[..|a|] == a;
      IndexOfAt(s, '/', |a|);
    }
  }

  lemma ParseCidrText(text: string, v4: nat, v6: nat)
    requires '/' !in text
    ensures ParseCidr(":" + text + (V4Part(v4) + V6Part(v6))) == CidrFields(Some(text), v4, v6)
  {
    var lengths := V4Part(v4) + V6Part(v6);
    var u := text + lengths;
    var s := ":" + text + lengths;
    assert s == ":" + u;
    assert s[1..] == u;
    LengthsStart(v4, v6);
    BeforeSlash(text, lengths);
    assert u[|text|..] == lengths;
    assert s[1 + |text|..] == lengths;
    ParseLengthsText(Some(text), v4, v6);
  }

  lemma ParseCidrWithDomain(d: Domain, v4: nat, v6: nat)
    requires '/' !in DomainText(d)
    ensures ParseCidr(CidrSuffix(Some(d), v4, v6)) == CidrFields(Some(DomainText(d)), v4, v6)
  {
    CidrSuffixWithDomain(d, v4, v6);
    ParseCidrText(DomainText(d), v4, v6);
  }

  lemma CidrSuffixWithDomain(d: Domain, v4: nat, v6: nat)
    ensures CidrSuffix(Some(d), v4, v6) == ":" + DomainText(d) + (V4Part(v4) + V6Part(v6))
  {
  }

  lemma ParseCidrNoColon(s: string)
    requires s == [] || s[0] == '/'
    ensures ParseCidr(s) == ParseLengths(None, s)
  {
  }

  lemma ParseCidrWithoutDomain(v4: nat, v6: nat)
    ensures ParseCidr(CidrSuffix(None, v4, v6)) == CidrFields(None, v4, v6)
  {
    var s := V4Part(v4) + V6Part(v6);
    assert CidrSuffix(None, v4, v6) == s;
    LengthsStart(v4, v6);
    ParseCidrNoColon(s);
    ParseLengthsText(None, v4, v6);
  }

  /**
   * The `a`/`mx` suffix reads back to its domain text and both prefix
   * lengths, when the domain's text holds no `/`.
   */
  lemma ParseCidrSuffix(target: Option<Domain>, v4: nat, v6: nat)
    requires target.Some? ==> '/' !in DomainText(target.value)
    ensures ParseCidr(CidrSuffix(target, v4, v6)) ==
      CidrFields(if target.Some? then Some(DomainText(target.value)) else None, v4, v6)
  {
    if target.Some? {
      ParseCidrWithDomain(target.value, v4, v6);
    } else {
      ParseCidrWithoutDomain(v4, v6);
    }
  }

  /**
   * Past a domain part without `/`, the suffix holds a slash exactly when a
   * prefix length differs from its default: `/n` for IPv4 lengths other than
   * 32, `//m` for IPv6 lengths other than 128.
   */
  lemma CidrSuffixParts(target: Option<Domain>, v4: nat, v6: nat)
    ensures '/' !in DomainPart(target) ==>
      ('/' in CidrSuffix(target, v4, v6) <==> v4 != 32 || v6 != 128)
  {
    var s := CidrSuffix(target, v4, v6);
    if v4 != 32 {
      assert s[|DomainPart(target)|] == '/';
    } else if v6 != 128 {
      assert s[|DomainPart(target)|] == '/';
    }
  }

  /** An address's text written as a network: the prefix is shown exactly when it differs from the netmask bits. */
  lemma NetworkText(n: IPNet)
    requires '/' !in n.address
    ensures var arg := n.address + NetSuffix(n);
      Before(arg, '/') == n.address &&
      ('/' in arg <==> n.prefix != n.maskBits) &&
      (n.prefix != n.maskBits ==> ReadNumber(After(arg, '/')) == n.prefix)
  {
    var arg := n.address + NetSuffix(n);
    BeforeSlash(n.address, NetSuffix(n));
    if n.prefix != n.maskBits {
      var digits := Decimal(n.prefix);
      var k := |n.address|;
      assert arg == n.address + ("/" + digits);
      assert IndexOf(arg, '/') == k by {
        assert arg[k] == '/';
        assert arg[..k] == n.address;
        IndexOfAt(arg, '/', k);
      }
      assert After(arg, '/') == digits;
      ReadDecimal(n.prefix);
    } else {
      assert arg == n.address;
    }
  }

  // ---------------------------------------------------------------------
  // Spaces

  /** The texts a mechanism is built from hold no space. */
  predicate SpaceFreeMechanism(m: Mechanism)
  {
    match m
    case All => true
    case Include(d) => SpaceFreeDelimiters(d)
    case Exists(d) => SpaceFreeDelimiters(d)
    case A(t, _, _) => t.Some? ==> SpaceFreeDelimiters(t.value)
    case MX(t, _, _) => t.Some? ==> SpaceFreeDelimiters(t.value)
    case Network(n) => ' ' !in n.address
  }

  lemma CidrSuffixSpaceFree(target: Option<Domain>, v4: nat, v6: nat)
    requires target.Some? ==> SpaceFreeDelimiters(target.value)
    ensures ' ' !in CidrSuffix(target, v4, v6)
  {
    if target.Some? {
      DomainTextSpaceFree(target.value);
    }
    DecimalAvoids(v4, ' ');
    DecimalAvoids(v6, ' ');
  }

  /** A mechanism's text holds no space when its parts hold none. */
  lemma MechanismTextSpaceFree(m: Mechanism)
    requires SpaceFreeMechanism(m)
    ensures ' ' !in MechanismText(m)
  {
    match m
    case All =>
    case Include(d) =>
      DomainTextSpaceFree(d);
      assert ' ' !in DomainArgument(d);
    case Exists(d) =>
      DomainTextSpaceFree(d);
      assert ' ' !in DomainArgument(d);
    case A(t, v4, v6) => CidrSuffixSpaceFree(t, v4, v6);
    case MX(t, v4, v6) => CidrSuffixSpaceFree(t, v4, v6);
    case Network(n) =>
      assert ' ' !in NetSuffix(n) by {
        DecimalAvoids(n.prefix, ' ');
      }
  }

  lemma ModifierTextSpaceFree(m: Modifier)
    requires SpaceFreeDelimiters(m.domain)
    ensures ' ' !in ModifierText(m)
  {
    DomainTextSpaceFree(m.domain);
    assert ' ' !in ModifierArgument(m);
  }
}
