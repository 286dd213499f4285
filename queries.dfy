/**
 * The query an SPF check runs for: the sender address, the checked domain
 * and the client address. Only the values the macros read are modelled.
 */
module Queries {
  import opened Text

  type Octet = x: nat | x < 0x100
  type Group = x: nat | x < 0x1_0000

  /** A parsed client address: four octets, or eight 16-bit groups. */
  datatype IPAddress =
    | IPv4(octets: seq<Octet>)
    | IPv6(groups: seq<Group>)
  {
    predicate Valid()
    {
      match this
      case IPv4(o) => |o| == 4
      case IPv6(g) => |g| == 8
    }
  }

  /** An address as the address library parses it: always of its version's width. */
  type Address = ip: IPAddress | ip.Valid() witness IPv4([127, 0, 0, 1])

  /** The address a query uses when none is given. */
  const Loopback: Address := IPv4([127, 0, 0, 1])

  /**
   * A query. An empty `domain` stands for "not given": `Query.domain` treats
   * `None` and `""` alike through `or`.
   */
  datatype Query = Query(sender: string, domain: string, ip: Address)

  /** The effective sender: a value without `@` is taken as `postmaster@` that value. */
  function Sender(q: Query): (r: string)
    ensures '@' in r
    ensures '@' in q.sender ==> r == q.sender
    ensures '@' !in q.sender ==> r == "postmaster@" + q.sender
  {
    if '@' in q.sender then q.sender else "postmaster@" + q.sender
  }

  /**
   * The effective domain: the explicit one when it is non-empty, otherwise
   * the second `@`-separated part of the effective sender.
   */
  function Domain(q: Query): (r: string)
    ensures q.domain != "" ==> r == q.domain
    ensures q.domain == "" ==> r == Before(After(Sender(q), '@'), '@')
  {
    SplitSecond(Sender(q), '@');
    if q.domain != "" then q.domain else Split(Sender(q), "@")[1]
  }

  /** Asking for the effective sender of an effective sender changes nothing. */
  lemma SenderIdempotent(q: Query)
    ensures Sender(q.(sender := Sender(q))) == Sender(q)
  {
  }

  /** Without an explicit domain, a sender without `@` is the effective domain itself. */
  lemma DomainFallback(q: Query)
    ensures q.domain == "" && '@' !in q.sender ==> Domain(q) == q.sender
  {
    if q.domain == "" && '@' !in q.sender {
      assert IndexOf(Sender(q), '@') == 10 by {
        assert Sender(q)[..10] == "postmaster";
      }
      assert After(Sender(q), '@') == q.sender;
    }
  }

  function HexDigit(d: nat): (r: char)
    requires d < 16
  {
    "0123456789abcdef"[d]
  }

  /** One group as four lower-case hex digits, zero-padded. */
  function GroupHex(g: Group): (r: string)
    ensures |r| == 4
  {
    [HexDigit(g / 0x1000), HexDigit(g / 0x100 % 16), HexDigit(g / 0x10 % 16), HexDigit(g % 16)]
  }

  /** The fully expanded hex digits of an IPv6 address, without colons. */
  function Nibbles(groups: seq<Group>): (r: string)
    ensures |r| == 4 * |groups|
  {
    if groups == [] then "" else GroupHex(groups[0]) + Nibbles(groups[1..])
  }

  /** Each character as a label of its own. */
  function Chars(s: string): (r: seq<string>)
    ensures |r| == |s|
    ensures forall k :: 0 <= k < |s| ==> r[k] == [s[k]]
  {
    seq(|s|, k requires 0 <= k < |s| => [s[k]])
  }

  /** Dotted decimal: each octet in decimal, joined by dots. */
  function DottedQuad(octets: seq<Octet>): (r: seq<string>)
    ensures |r| == |octets|
  {
    seq(|octets|, k requires 0 <= k < |octets| => Decimal(octets[k]))
  }

  /**
   * The value of the `i` macro: the dotted quad for IPv4; for IPv6 the 32
   * hex digits of the expanded address with a dot between every two.
   */
  function IPText(ip: IPAddress): (r: string)
  {
    match ip
    case IPv4(o) => Join(".", DottedQuad(o))
    case IPv6(g) => Join(".", Chars(Nibbles(g)))
  }

  /** The value of the `v` macro. */
  function IPVersionText(ip: IPAddress): (r: string)
    ensures ip.IPv6? ==> r == "ip6"
    ensures ip.IPv4? ==> r == "in-addr"
  {
    if ip.IPv6? then "ip6" else "in-addr"
  }

  /**
   * The `i` text of an address splits at dots into its parts: four decimal
   * octets, or the 32 nibbles of the expanded IPv6 address, each a single
   * lower-case hex digit.
   */
  lemma IPTextLabels(ip: Address)
    ensures ip.IPv4? ==> Split(IPText(ip), ".") == DottedQuad(ip.octets)
    ensures ip.IPv6? ==> Split(IPText(ip), ".") == Chars(Nibbles(ip.groups))
    ensures ip.IPv6? ==> |Split(IPText(ip), ".")| == 32
    ensures ip.IPv6? ==> forall k :: 0 <= k < 32 ==>
      |Split(IPText(ip), ".")[k]| == 1 && Split(IPText(ip), ".")[k][0] in "0123456789abcdef"
  {
    match ip
    case IPv4(o) =>
      var parts := DottedQuad(o);
      forall i | 0 <= i < |parts| ensures Avoids(parts[i], ".") {
        DecimalDigits(o[i]);
      }
      SplitJoin(parts, ".", '.');
    case IPv6(g) =>
      var parts := Chars(Nibbles(g));
      forall i | 0 <= i < |parts| ensures Avoids(parts[i], ".") && Nibbles(g)[i] in "0123456789abcdef" {
        NibblesHex(g, i);
      }
      SplitJoin(parts, ".", '.');
  }

  lemma {:induction false} NibblesHex(g: seq<Group>, i: nat)
    requires i < |Nibbles(g)|
    ensures Nibbles(g)[i] in "0123456789abcdef"
    decreases |g|
  {
    if i >= 4 {
      NibblesHex(g[1..], i - 4);
    }
  }
}
