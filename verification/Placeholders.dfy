/** Placeholder expansion in metadata templates: replaceInString in src/wsd_server.cpp. */
module Placeholders {
  import opened Basics

  datatype Name = EndpointId | HostDescription | FullHostName | IpAddr

  /** What the daemon knows about itself, as far as a template can ask for it. */
  datatype Host = Host(endpointIdentifier: string, friendlyName: string, fullComputerName: string, hostAddr: string) {
    function Value(n: Name): string {
      match n
      case EndpointId => endpointIdentifier
      case HostDescription => friendlyName
      case FullHostName => fullComputerName
      case IpAddr => hostAddr
    }
  }

  function Spelling(n: Name): (s: string)
    ensures s != [] && '$' !in s
  {
    match n
    case EndpointId => "ENDPOINT_ID"
    case HostDescription => "SMB_HOST_DESCRIPTION"
    case FullHostName => "SMB_FULL_HOST_NAME"
    case IpAddr => "IP_ADDR"
  }

  /** The first name in `order` that `rest` starts with. */
  function Lookup(order: seq<Name>, rest: string): (r: Option<Name>)
    ensures r.Some? ==> Spelling(r.value) <= rest && r.value in order
    ensures r.None? ==> forall n :: n in order ==> !(Spelling(n) <= rest)
  {
    if order == [] then None
    else if Spelling(order[0]) <= rest then Some(order[0])
    else Lookup(order[1..], rest)
  }

  const TEST_ORDER: seq<Name> := [EndpointId, HostDescription, FullHostName, IpAddr]

  lemma NamesAreApart(n: Name, m: Name, rest: string)
    requires Spelling(n) <= rest && Spelling(m) <= rest
    ensures n == m
  {
    var s, t := Spelling(n), Spelling(m);
    assert s[0] == rest[0] == t[0];
    if |s| > 4 && |t| > 4 {
      assert s[4] == rest[4] == t[4];
    }
  }

  lemma AllNamesTested()
    ensures forall n: Name :: n in TEST_ORDER
  {
    forall n: Name
      ensures n in TEST_ORDER
    {
      var i := match n case EndpointId => 0 case HostDescription => 1 case FullHostName => 2 case IpAddr => 3;
      assert TEST_ORDER[i] == n;
    }
  }

  /** The order of the four name tests does not matter. */
  lemma OrderIrrelevant(order: seq<Name>, rest: string)
    requires forall n: Name :: n in order
    ensures Lookup(order, rest) == Lookup(TEST_ORDER, rest)
  {
    var a, b := Lookup(order, rest), Lookup(TEST_ORDER, rest);
    AllNamesTested();
    if a.Some? && b.Some? {
      NamesAreApart(a.value, b.value, rest);
    }
  }

  // ----- the scanner -----

  function Expand(s: string, host: Host): string
    decreases |s|, 0
  {
    if s == [] then []
    else if s[0] == '$' then ExpandDollar(s[1..], host)
    else [s[0]] + Expand(s[1..], host)
  }

  /** `t` is what follows a `$`. */
  function ExpandDollar(t: string, host: Host): string
    decreases |t|, 1
  {
    if t == [] then []
    else if t[0] == '$' then "$" + Expand(t[1..], host)
    else
      match Lookup(TEST_ORDER, t)
      case Some(n) => host.Value(n) + Expand(t[|Spelling(n)|..], host)
      case None => Expand(t[1..], host)
  }

  method ReplaceInString(str: string, host: Host) returns (ret: string)
    ensures ret == Expand(str, host)
  {
    ret := [];
    var first := 0;
    var inDollar := false;
    while first != |str|
      invariant first <= |str|
      invariant ret + (if inDollar then ExpandDollar(str[first..], host) else Expand(str[first..], host)) ==
                Expand(str, host)
      decreases |str| - first
    {
      var c := str[first];
      ghost var rest := str[first..];
      assert rest[1..] == str[first + 1..];
      if inDollar {
        inDollar := false;
        if c == '$' {
          Append(ret, [c], Expand(rest[1..], host));
          ret := ret + [c];
        } else {
          var match' := Lookup(TEST_ORDER, str[first..]);
          if match'.Some? {
            var value, size := host.Value(match'.value), |Spelling(match'.value)|;
            assert rest[size..] == str[first + size..];
            Append(ret, value, Expand(rest[size..], host));
            ret := ret + value;
            first := first + size;
            continue;
          }
        }
      } else {
        if c == '$' {
          inDollar := true;
        } else {
          Append(ret, [c], Expand(rest[1..], host));
          ret := ret + [c];
        }
      }
      first := first + 1;
    }
  }

  lemma Append(a: string, b: string, c: string)
    ensures a + (b + c) == (a + b) + c
  {
  }

  // ----- templates as lists of tokens -----

  datatype Token =
    | Literal(c: char)
    | Dollar            // $$
    | Placeholder(name: Name)
    | Lost(c: char)     // a $ followed by a character that starts no placeholder
    | Dangling          // a $ at the very end

  ghost function PrintToken(t: Token): string {
    match t
    case Literal(c) => [c]
    case Dollar => "$$"
    case Placeholder(n) => ['$'] + Spelling(n)
    case Lost(c) => ['$', c]
    case Dangling => "$"
  }

  ghost function Print(ts: seq<Token>): string {
    if ts == [] then [] else PrintToken(ts[0]) + Print(ts[1..])
  }

  /** The token can stand before `rest` and be read back. */
  ghost predicate Fits(t: Token, rest: string) {
    match t
    case Literal(c) => c != '$'
    case Lost(c) => c != '$' && Lookup(TEST_ORDER, [c] + rest) == None
    case Dangling => rest == []
    case _ => true
  }

  ghost predicate WellFormed(ts: seq<Token>) {
    ts != [] ==> Fits(ts[0], Print(ts[1..])) && WellFormed(ts[1..])
  }

  ghost function Means(t: Token, host: Host): string {
    match t
    case Literal(c) => [c]
    case Dollar => "$"
    case Placeholder(n) => host.Value(n)
    case Lost(_) => []
    case Dangling => []
  }

  ghost function Meaning(ts: seq<Token>, host: Host): string {
    if ts == [] then [] else Means(ts[0], host) + Meaning(ts[1..], host)
  }

  lemma ExpandLiteral(c: char, rest: string, host: Host)
    requires c != '$'
    ensures Expand([c] + rest, host) == [c] + Expand(rest, host)
  {
    assert ([c] + rest)[1..] == rest;
  }

  lemma ExpandDollarWith(t: string, host: Host)
    ensures Expand("$" + t, host) == ExpandDollar(t, host)
  {
    assert ("$" + t)[1..] == t;
  }

  lemma ExpandPlaceholder(n: Name, rest: string, host: Host)
    ensures ExpandDollar(Spelling(n) + rest, host) == host.Value(n) + Expand(rest, host)
  {
    var t := Spelling(n) + rest;
    AllNamesTested();
    OrderIrrelevant([n] + TEST_ORDER, t);
    assert t[0] == Spelling(n)[0] && Spelling(n)[0] in Spelling(n);
    assert t[|Spelling(n)|..] == rest;
  }

  /** The four placeholders and what stands for them, wherever they come in a text. */
  lemma LiteralPlaceholders(before: string, after: string, host: Host)
    requires '$' !in before
    ensures Expand(before + "$ENDPOINT_ID" + after, host) == before + host.endpointIdentifier + Expand(after, host)
    ensures Expand(before + "$SMB_HOST_DESCRIPTION" + after, host) == before + host.friendlyName + Expand(after, host)
    ensures Expand(before + "$SMB_FULL_HOST_NAME" + after, host) == before + host.fullComputerName + Expand(after, host)
    ensures Expand(before + "$IP_ADDR" + after, host) == before + host.hostAddr + Expand(after, host)
  {
    SpelledOut();
    hide Expand, Spelling;
    ExpandAt(before, EndpointId, after, host);
    ExpandAt(before, HostDescription, after, host);
    ExpandAt(before, FullHostName, after, host);
    ExpandAt(before, IpAddr, after, host);
  }

  lemma SpelledOut()
    ensures "$" + Spelling(EndpointId) == "$ENDPOINT_ID"
    ensures "$" + Spelling(HostDescription) == "$SMB_HOST_DESCRIPTION"
    ensures "$" + Spelling(FullHostName) == "$SMB_FULL_HOST_NAME"
    ensures "$" + Spelling(IpAddr) == "$IP_ADDR"
  {
  }

  lemma {:induction false} ExpandAt(before: string, n: Name, after: string, host: Host)
    requires '$' !in before
    ensures Expand(before + ("$" + Spelling(n)) + after, host) == before + host.Value(n) + Expand(after, host)
  {
    hide Expand, ExpandDollar, Spelling;
    if before == [] {
      assert [] + ("$" + Spelling(n)) + after == "$" + (Spelling(n) + after);
      ExpandDollarWith(Spelling(n) + after, host);
      ExpandPlaceholder(n, after, host);
      assert [] + host.Value(n) + Expand(after, host) == host.Value(n) + Expand(after, host);
    } else {
      var c, rest := before[0], before[1..];
      var tail := rest + ("$" + Spelling(n)) + after;
      assert before + ("$" + Spelling(n)) + after == [c] + tail;
      ExpandLiteral(c, tail, host);
      ExpandAt(rest, n, after, host);
      assert [c] + (rest + host.Value(n) + Expand(after, host)) == before + host.Value(n) + Expand(after, host);
    }
  }

  lemma ExpandLost(c: char, rest: string, host: Host)
    requires c != '$' && Lookup(TEST_ORDER, [c] + rest) == None
    ensures ExpandDollar([c] + rest, host) == Expand(rest, host)
  {
    assert ([c] + rest)[1..] == rest;
  }

  lemma ExpandTwoDollars(rest: string, host: Host)
    ensures ExpandDollar(['$'] + rest, host) == "$" + Expand(rest, host)
  {
    assert (['$'] + rest)[1..] == rest;
  }

  lemma ExpandNothing(host: Host)
    ensures Expand([], host) == [] == ExpandDollar([], host)
  {
  }

  lemma ExpandToken(token: Token, rest: string, host: Host)
    requires Fits(token, rest)
    ensures Expand(PrintToken(token) + rest, host) == Means(token, host) + Expand(rest, host)
  {
    hide Expand, ExpandDollar, Spelling, Lookup;
    var s := PrintToken(token) + rest;
    match token
    case Literal(c) => ExpandLiteral(c, rest, host);
    case Dollar =>
      assert s == "$" + (['$'] + rest);
      ExpandDollarWith(['$'] + rest, host);
      ExpandTwoDollars(rest, host);
    case Placeholder(n) =>
      assert s == "$" + (Spelling(n) + rest);
      ExpandDollarWith(Spelling(n) + rest, host);
      ExpandPlaceholder(n, rest, host);
    case Lost(c) =>
      assert s == "$" + ([c] + rest) && [] + Expand(rest, host) == Expand(rest, host);
      ExpandDollarWith([c] + rest, host);
      ExpandLost(c, rest, host);
    case Dangling =>
      assert s == "$" + [];
      ExpandDollarWith([], host);
      ExpandNothing(host);
  }

  /** Expansion is the concatenation of the meanings: a substituted value is never scanned again. */
  lemma {:induction false} ExpandPrinted(ts: seq<Token>, host: Host)
    requires WellFormed(ts)
    ensures Expand(Print(ts), host) == Meaning(ts, host)
  {
    if ts != [] {
      hide Means, Expand, PrintToken;
      ExpandToken(ts[0], Print(ts[1..]), host);
      ExpandPrinted(ts[1..], host);
    } else {
      assert Print(ts) == [];
    }
  }

  /** The token at the front of a text, and what follows it. */
  lemma FirstToken(s: string) returns (token: Token, rest: string)
    requires s != []
    ensures s == PrintToken(token) + rest && Fits(token, rest) && |rest| < |s|
  {
    hide Spelling;
    if s[0] != '$' {
      token, rest := Literal(s[0]), s[1..];
    } else if |s| == 1 {
      token, rest := Dangling, [];
    } else if s[1] == '$' {
      token, rest := Dollar, s[2..];
    } else {
      match Lookup(TEST_ORDER, s[1..])
      case Some(n) => token, rest := Placeholder(n), s[1 + |Spelling(n)|..];
      case None =>
        token, rest := Lost(s[1]), s[2..];
        assert s[1..] == [s[1]] + rest;
    }
  }

  /** Every text is a printed template. */
  lemma {:induction false} EveryTextIsPrinted(s: string) returns (ts: seq<Token>)
    ensures WellFormed(ts) && Print(ts) == s
    decreases |s|
  {
    ts := [];
    if s != [] {
      hide Fits, PrintToken;
      var token, rest := FirstToken(s);
      var others := EveryTextIsPrinted(rest);
      ts := [token] + others;
      assert ts[1..] == others;
    }
  }

  // ----- consequences -----

  ghost function Doubled(s: string): string {
    if s == [] then [] else (if s[0] == '$' then "$$" else [s[0]]) + Doubled(s[1..])
  }

  /** Doubling every `$` protects any text from expansion. */
  lemma {:induction false} DoubledIsLiteral(s: string, host: Host)
    ensures Expand(Doubled(s), host) == s
  {
    if s != [] {
      DoubledIsLiteral(s[1..], host);
      var d := Doubled(s);
      if s[0] == '$' {
        assert d[1..][1..] == Doubled(s[1..]);
      } else {
        assert d[1..] == Doubled(s[1..]);
      }
    }
  }

  /** The shortcut taken for text without any `$` changes nothing. */
  lemma {:induction false} ExpandWithoutDollar(s: string, host: Host)
    requires '$' !in s
    ensures Expand(s, host) == s
  {
    if s != [] {
      ExpandWithoutDollar(s[1..], host);
    }
  }

  // ----- the documented treatment of a lone `$`: only the `$` itself goes away -----

  ghost function Documented(t: Token, host: Host): string {
    if t.Lost? then [t.c] else Means(t, host)
  }

  ghost function DocumentedMeaning(ts: seq<Token>, host: Host): string {
    if ts == [] then [] else Documented(ts[0], host) + DocumentedMeaning(ts[1..], host)
  }

  ghost function LostCount(ts: seq<Token>): nat {
    if ts == [] then 0 else (if ts[0].Lost? then 1 else 0) + LostCount(ts[1..])
  }

  lemma {:induction false} LostCharactersAreMissing(ts: seq<Token>, host: Host)
    ensures |DocumentedMeaning(ts, host)| == |Meaning(ts, host)| + LostCount(ts)
    ensures LostCount(ts) == 0 ==> DocumentedMeaning(ts, host) == Meaning(ts, host)
  {
    if ts != [] {
      LostCharactersAreMissing(ts[1..], host);
    }
  }

  /** The code does what the documentation says exactly when no lone `$` has a character after it. */
  lemma DocumentedIff(ts: seq<Token>, host: Host)
    requires WellFormed(ts)
    ensures Expand(Print(ts), host) == DocumentedMeaning(ts, host) <==> LostCount(ts) == 0
  {
    ExpandPrinted(ts, host);
    LostCharactersAreMissing(ts, host);
  }

  /** For instance `$5` is documented to become `5`, and becomes nothing. */
  lemma LoneDollarExample(host: Host)
    ensures Expand("$5", host) == [] && DocumentedMeaning([Lost('5')], host) == "5"
  {
    var s := "$5";
    assert s[1..] == "5" && s[1..][1..] == [];
    assert [Lost('5')][1..] == [];
  }
}
