/** Concrete renderings and expansions, stated as lemmas over the model. */
module Scenarios {
  import opened Wrappers
  import opened Text
  import opened Queries
  import opened Macros
  import opened Domains
  import opened Terms
  import opened Records

  lemma QualifierElision()
    ensures DirectiveText(Directive(All, Pass)) == "all"
    ensures DirectiveText(Directive(All, Fail)) == "-all"
  {
  }

  /** `a` with both prefix lengths shows both; the default `a` shows neither. */
  lemma DualCidr()
    ensures MechanismText(A(None, 24, 64)) == "a/24//64"
    ensures MechanismText(DefaultA(None)) == "a"
  {
    assert Decimal(24) == "24";
    assert Decimal(64) == "64";
    assert CidrSuffix(None, 24, 64) == "/24//64" by {
      CidrSuffixUnfold(None, 24, 64);
    }
  }

  /** `mx` with an IPv4 prefix length shows `/n` only; the default `mx` shows nothing. */
  lemma MXCidr()
    ensures MechanismText(MX(None, 24, 128)) == "mx/24"
    ensures MechanismText(DefaultMX(None)) == "mx"
  {
    assert Decimal(24) == "24";
    assert CidrSuffix(None, 24, 128) == "/24" by {
      CidrSuffixUnfold(None, 24, 128);
    }
  }

  /** An IPv4 network with a /24 prefix shows it; a single address does not. */
  lemma NetworkSuffix(address: string)
    ensures MechanismText(Network(IPNet(V4, address, 24, 32))) == "ip4:" + address + "/24"
    ensures MechanismText(Network(IPNet(V4, address, 32, 32))) == "ip4:" + address
  {
    assert Decimal(24) == "24";
    assert "ip" + [VersionDigit(V4)] + ":" == "ip4:";
  }

  const SpfDomain: Domains.Domain := Domains.Domain([Literal("_spf.example.com")])

  lemma SpfDomainText()
    ensures DomainText(SpfDomain) == "_spf.example.com"
  {
    var text := "_spf.example.com";
    assert '%' !in text && ' ' !in text;
    EscapePlain(text);
    assert SpfDomain.fragments[..0] == [];
    assert FragmentsText(SpfDomain.fragments) == FragmentsText([]) + EscapeLiteral(text);
  }

  lemma TwoTerms(t0: Term, t1: Term)
    ensures RecordText(Record([t0, t1])) == "v=spf1 " + TermText(t0) + " " + TermText(t1)
  {
    var a, b := TermText(t0), TermText(t1);
    var j := a + " " + b;
    assert Join(" ", TermTexts([t0, t1])) == j by {
      assert TermTexts([t0, t1]) == [a, b];
      JoinTwo(" ", a, b);
    }
    assert RecordText(Record([t0, t1])) == "v=spf1 " + j by {
      HeaderText(j);
    }
    WordsText(a, b);
  }

  lemma WordsText(a: string, b: string)
    ensures "v=spf1 " + (a + " " + b) == "v=spf1 " + a + " " + b
  {
  }

  lemma HeaderText(rest: string)
    ensures "v=" + Version + (" " + rest) == "v=spf1 " + rest
  {
  }

  /** `include:<domain>` followed by `-all`, as one record. */
  lemma IncludeThenFail(d: Domains.Domain)
    ensures RecordText(Record([DirectiveTerm(Directive(Include(d), Pass)), DirectiveTerm(Directive(All, Fail))]))
      == "v=spf1 include:" + DomainText(d) + " -all"
  {
    var t0, t1 := DirectiveTerm(Directive(Include(d), Pass)), DirectiveTerm(Directive(All, Fail));
    var text := DomainText(d);
    assert TermText(t0) == "include:" + text by {
      assert TermText(t0) == "" + ("include" + (":" + text));
    }
    assert TermText(t1) == "-all" by {
      assert TermText(t1) == ['-'] + "all";
    }
    TwoTerms(t0, t1);
    IncludeThenFailText(text);
  }

  lemma IncludeThenFailText(text: string)
    ensures "v=spf1 " + ("include:" + text) + " " + "-all" == "v=spf1 include:" + text + " -all"
  {
  }

  /**
   * For a sender `local@domain` without further `@`, the macros `%{s}`,
   * `%{l}` and `%{o}` give the whole address, the local part and the domain.
   */
  lemma SenderMacros(local: string, domain: string, ip: Address)
    requires '@' !in local && '@' !in domain
    ensures var q := Query(local + "@" + domain, "", ip);
      Expansion(Macro(Macros.Sender, 0, false, "."), q) == Success(local + "@" + domain) &&
      Expansion(Macro(SenderLocal, 0, false, "."), q) == Success(local) &&
      Expansion(Macro(SenderDomain, 0, false, "."), q) == Success(domain)
  {
    var s := local + "@" + domain;
    var q := Query(s, "", ip);
    assert s[|local|] == '@';
    assert s[..|local|] == local;
    assert '@' in s;
    IndexOfAt(s, '@', |local|);
    assert After(s, '@') == domain;
    RawValueSenderParts(q);
    ExpansionDefault(Macro(Macros.Sender, 0, false, "."), q);
    ExpansionDefault(Macro(SenderLocal, 0, false, "."), q);
    ExpansionDefault(Macro(SenderDomain, 0, false, "."), q);
  }

  /**
   * `%{d2r}` on a three-label domain `a.b.c`: reversing gives `c.b.a` and
   * keeping the last two labels gives `b.a`.
   */
  lemma ReversedTruncated(a: string, b: string, c: string, sender: string, ip: Address)
    requires Avoids(a, ".") && Avoids(b, ".") && Avoids(c, ".")
    ensures Expansion(Macro(Macros.Domain, 2, true, "."), Query(sender, a + "." + b + "." + c, ip)) ==
      Success(b + "." + a)
  {
    var labels := [a, b, c];
    JoinCons(".", b, [c]);
    JoinCons(".", a, [b, c]);
    assert Join(".", labels) == a + "." + b + "." + c;
    SplitJoin(labels, ".", '.');
    var m := Macro(Macros.Domain, 2, true, ".");
    SelectedLabels(m, labels);
    assert Selected(m, labels) == [b, a];
    JoinCons(".", b, [a]);
  }
}
