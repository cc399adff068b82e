/** Looking headers up in a parsed request: src/http_request.cpp. */
module HttpHeaders {
  import opened Basics
  import opened HttpParser

  /** Why a header could not be used, or what it holds; `Found(None)` when it is absent. */
  datatype Outcome<+T> = NotUnique | BadFormat | Found(value: Option<T>)

  const CONTENT_LENGTH: seq<byte> := [67, 111, 110, 116, 101, 110, 116, 45, 76, 101, 110, 103, 116, 104]
  const CONTENT_TYPE: seq<byte> := [67, 111, 110, 116, 101, 110, 116, 45, 84, 121, 112, 101]
  const CONNECTION: seq<byte> := [67, 111, 110, 110, 101, 99, 116, 105, 111, 110]
  const KEEP_ALIVE: seq<byte> := [107, 101, 101, 112, 45, 97, 108, 105, 118, 101]
  const COMMA: byte := 44
  const SEMICOLON: byte := 59

  /** The values under one name, in the order they were added: equal_range on the multimap. */
  function Values(headers: seq<Header>, name: seq<byte>): seq<seq<byte>> {
    if headers == [] then []
    else (if headers[0].name == name then [headers[0].value] else []) + Values(headers[1..], name)
  }

  function UniqueHeader(rq: Request, name: seq<byte>): Outcome<seq<byte>> {
    var vs := Values(rq.headers, name);
    if |vs| == 0 then Found(None) else if |vs| > 1 then NotUnique else Found(Some(vs[0]))
  }

  // ----- numbers -----

  const SIZE_T: nat := 0x1_0000_0000_0000_0000

  function Decimal(digits: seq<byte>): nat
    requires forall c :: c in digits ==> IsDigit(c)
  {
    if digits == [] then 0
    else
      assert digits[|digits| - 1] in digits && IsDigit(digits[|digits| - 1]);
      Decimal(digits[..|digits| - 1]) * 10 + (digits[|digits| - 1] as int - 48)
  }

  predicate AllDigits(s: seq<byte>) { s != [] && forall c :: c in s ==> IsDigit(c) }

  /** from_chars must use the whole value, and the number must fit. */
  function ContentLength(rq: Request): Outcome<nat> {
    match UniqueHeader(rq, CONTENT_LENGTH)
    case NotUnique => NotUnique
    case BadFormat => BadFormat
    case Found(None) => Found(None)
    case Found(Some(v)) =>
      if AllDigits(v) && Decimal(v) < SIZE_T then Found(Some(Decimal(v))) else BadFormat
  }

  // ----- lists -----

  /** Position of the first two-byte separator, or |s|. */
  function FindSeparator(s: seq<byte>, a: byte, b: byte): (n: nat)
    ensures n == |s| || (n + 2 <= |s| && s[n] == a && s[n + 1] == b)
  {
    if |s| < 2 then |s|
    else if s[0] == a && s[1] == b then 0
    else 1 + FindSeparator(s[1..], a, b)
  }

  function Split(s: seq<byte>, a: byte, b: byte): seq<seq<byte>>
    decreases |s|
  {
    var n := FindSeparator(s, a, b);
    if n == |s| then [s] else [s[..n]] + Split(s[n + 2..], a, b)
  }

  function Join(vs: seq<seq<byte>>): seq<byte>
    requires vs != []
  {
    if |vs| == 1 then vs[0] else vs[0] + [COMMA, SP] + Join(vs[1..])
  }

  function HeaderList(rq: Request, name: seq<byte>): Option<seq<byte>> {
    var vs := Values(rq.headers, name);
    if vs == [] then None else Some(Join(vs))
  }

  method GetHeaderList(rq: Request, name: seq<byte>) returns (list: Option<seq<byte>>)
    ensures list == HeaderList(rq, name)
  {
    var vs := Values(rq.headers, name);
    if vs == [] {
      return None;
    }
    var builder := vs[0];
    var first := 1;
    assert vs[..1] == [vs[0]];
    while first != |vs|
      invariant 1 <= first <= |vs|
      invariant builder == Join(vs[..first])
      decreases |vs| - first
    {
      JoinSnoc(vs[..first], vs[first]);
      assert vs[..first + 1] == vs[..first] + [vs[first]];
      builder := builder + [COMMA, SP];
      builder := builder + vs[first];
      first := first + 1;
    }
    assert vs[..|vs|] == vs;
    list := Some(builder);
  }

  lemma {:induction false} JoinSnoc(vs: seq<seq<byte>>, v: seq<byte>)
    requires vs != []
    ensures Join(vs + [v]) == Join(vs) + [COMMA, SP] + v
  {
    if |vs| == 1 {
      assert (vs + [v])[1..] == [v];
    } else {
      assert (vs + [v])[1..] == vs[1..] + [v];
      JoinSnoc(vs[1..], v);
    }
  }

  function ContentType(rq: Request): Outcome<seq<seq<byte>>> {
    match UniqueHeader(rq, CONTENT_TYPE)
    case NotUnique => NotUnique
    case BadFormat => BadFormat
    case Found(None) => Found(None)
    case Found(Some(v)) => Found(Some(Split(v, SEMICOLON, SP)))
  }

  predicate KeepAlive(rq: Request) {
    match HeaderList(rq, CONNECTION)
    case None => false
    case Some(list) => KEEP_ALIVE in Split(list, COMMA, SP)
  }

  // ----- the joined list is the lists of the single headers, one after the other -----

  lemma {:induction false} FindOver(x: seq<byte>, y: seq<byte>, a: byte, b: byte)
    requires a != b
    ensures FindSeparator(x + [a, b] + y, a, b) == FindSeparator(x, a, b)
  {
    var s := x + [a, b] + y;
    if x == [] {
    } else if |x| == 1 {
      assert s[1..] == [a, b] + y;
    } else if !(x[0] == a && x[1] == b) {
      assert s[1..] == x[1..] + [a, b] + y;
      FindOver(x[1..], y, a, b);
    }
  }

  /** Splitting off the first item. */
  lemma SplitFirst(item: seq<byte>, rest: seq<byte>, a: byte, b: byte)
    requires FindSeparator(item + [a, b] + rest, a, b) == |item|
    ensures Split(item + [a, b] + rest, a, b) == [item] + Split(rest, a, b)
  {
    var s := item + [a, b] + rest;
    assert s[..|item|] == item && s[|item| + 2..] == rest;
  }

  lemma Regroup<T>(item: seq<T>, sep: seq<T>, rest: seq<T>, more: seq<T>)
    ensures (item + sep + rest) + sep + more == item + sep + (rest + sep + more)
  {
  }

  lemma {:induction false} SplitOver(x: seq<byte>, y: seq<byte>, a: byte, b: byte)
    requires a != b
    ensures Split(x + [a, b] + y, a, b) == Split(x, a, b) + Split(y, a, b)
    decreases |x|
  {
    hide Split;
    var n := FindSeparator(x, a, b);
    FindOver(x, y, a, b);
    if n == |x| {
      SplitFirst(x, y, a, b);
      SplitWhole(x, a, b);
    } else {
      var item, rest := x[..n], x[n + 2..];
      var after := rest + [a, b] + y;
      Regroup(item, [a, b], rest, y);
      assert x == item + [a, b] + rest;
      hide FindSeparator;
      SplitFirst(item, rest, a, b);
      SplitFirst(item, after, a, b);
      SplitOver(rest, y, a, b);
      assert [item] + (Split(rest, a, b) + Split(y, a, b)) == [item] + Split(rest, a, b) + Split(y, a, b);
    }
  }

  lemma SplitWhole(s: seq<byte>, a: byte, b: byte)
    requires FindSeparator(s, a, b) == |s|
    ensures Split(s, a, b) == [s]
  {
  }

  // ----- items by position -----

  ghost predicate HasSeparator(s: seq<byte>, a: byte, b: byte) {
    exists k :: 0 <= k < |s| - 1 && s[k] == a && s[k + 1] == b
  }

  lemma {:induction false} FindsTheFirst(s: seq<byte>, a: byte, b: byte)
    ensures var n := FindSeparator(s, a, b); !HasSeparator(s[..n], a, b)
    ensures FindSeparator(s, a, b) == |s| <==> !HasSeparator(s, a, b)
  {
    var n := FindSeparator(s, a, b);
    if |s| >= 2 && !(s[0] == a && s[1] == b) {
      FindsTheFirst(s[1..], a, b);
      assert s[..n][1..] == s[1..][..n - 1];
      forall k | 0 <= k < n - 1
        ensures !(s[k] == a && s[k + 1] == b)
      {
        assert k > 0 ==> s[1..][..n - 1][k - 1] == s[k] && s[1..][..n - 1][k] == s[k + 1];
      }
    }
    if n == |s| {
      assert s[..n] == s;
    } else {
      assert s[n] == a && s[n + 1] == b;
    }
  }

  /** The item stands at `i`, between separators or at an end of the list. */
  ghost predicate ItemAt(list: seq<byte>, item: seq<byte>, a: byte, b: byte, i: int) {
    && 0 <= i <= i + |item| <= |list| && list[i..i + |item|] == item
    && (i == 0 || (i >= 2 && list[i - 2] == a && list[i - 1] == b))
    && (i + |item| == |list| || (i + |item| + 2 <= |list| && list[i + |item|] == a && list[i + |item| + 1] == b))
  }

  ghost predicate Lists(list: seq<byte>, item: seq<byte>, a: byte, b: byte) {
    !HasSeparator(item, a, b) && exists i :: ItemAt(list, item, a, b, i)
  }

  /** An item of what follows a separator is an item of the whole list. */
  lemma ItemLater(list: seq<byte>, item: seq<byte>, a: byte, b: byte, n: nat, k: int)
    requires n + 2 <= |list| && list[n] == a && list[n + 1] == b
    requires ItemAt(list[n + 2..], item, a, b, k)
    ensures ItemAt(list, item, a, b, n + 2 + k)
  {
    var rest, i := list[n + 2..], n + 2 + k;
    assert list[i..i + |item|] == rest[k..k + |item|];
    assert k >= 2 ==> list[i - 2] == rest[k - 2] && list[i - 1] == rest[k - 1];
    assert k + |item| + 2 <= |rest| ==>
        list[i + |item|] == rest[k + |item|] && list[i + |item| + 1] == rest[k + |item| + 1];
  }

  lemma SplitStep(s: seq<byte>, a: byte, b: byte)
    ensures var n := FindSeparator(s, a, b);
            Split(s, a, b) == if n == |s| then [s] else [s[..n]] + Split(s[n + 2..], a, b)
  {
  }

  lemma {:induction false} ItemsStand(list: seq<byte>, item: seq<byte>, a: byte, b: byte) returns (i: int)
    requires item in Split(list, a, b)
    ensures !HasSeparator(item, a, b) && ItemAt(list, item, a, b, i)
    decreases |list|
  {
    hide Split, HasSeparator;
    var n := FindSeparator(list, a, b);
    FindsTheFirst(list, a, b);
    SplitStep(list, a, b);
    i := 0;
    if n == |list| {
      assert list[..n] == list && item == list;
    } else if item != list[..n] {
      hide ItemAt, FindSeparator;
      var k := ItemsStand(list[n + 2..], item, a, b);
      ItemLater(list, item, a, b, n, k);
      i := n + 2 + k;
    }
  }

  lemma SplitAround(left: seq<byte>, item: seq<byte>, a: byte, b: byte)
    requires a != b && !HasSeparator(item, a, b)
    ensures Split(item, a, b) == [item]
    ensures Split(left + [a, b] + item, a, b) == Split(left, a, b) + [item]
  {
    FindsTheFirst(item, a, b);
    SplitWhole(item, a, b);
    SplitOver(left, item, a, b);
  }

  lemma StandingIsItem(list: seq<byte>, item: seq<byte>, a: byte, b: byte, i: int)
    requires a != b && !HasSeparator(item, a, b) && ItemAt(list, item, a, b, i)
    ensures item in Split(list, a, b)
  {
    hide Split, HasSeparator;
    var end := i + |item|;
    var front := list[..end];
    if i == 0 {
      assert front == item;
      SplitAround([], item, a, b);
    } else {
      assert front == list[..i - 2] + [a, b] + item;
      SplitAround(list[..i - 2], item, a, b);
      assert (Split(list[..i - 2], a, b) + [item])[|Split(list[..i - 2], a, b)|] == item;
    }
    assert item in Split(front, a, b);
    if end == |list| {
      assert front == list;
    } else {
      assert list == front + [a, b] + list[end + 2..];
      SplitOver(front, list[end + 2..], a, b);
    }
  }

  lemma OnePart(list: seq<byte>, a: byte, b: byte)
    ensures |Split(list, a, b)| == 1 <==> !HasSeparator(list, a, b)
    ensures |Split(list, a, b)| == 1 ==> Split(list, a, b) == [list]
    ensures |Split(list, a, b)| >= 1
  {
    FindsTheFirst(list, a, b);
    SplitStep(list, a, b);
    var n := FindSeparator(list, a, b);
    if n < |list| {
      SplitStep(list[n + 2..], a, b);
    }
  }

  lemma TwoParts(list: seq<byte>, first: seq<byte>, second: seq<byte>, a: byte, b: byte)
    requires a != b
    ensures Split(list, a, b) == [first, second] <==>
            list == first + [a, b] + second && !HasSeparator(first, a, b) && !HasSeparator(second, a, b)
  {
    hide Split, HasSeparator, FindSeparator;
    if !HasSeparator(first, a, b) && !HasSeparator(second, a, b) && list == first + [a, b] + second {
      SplitOver(first, second, a, b);
      FindsTheFirst(first, a, b);
      FindsTheFirst(second, a, b);
      SplitWhole(first, a, b);
      SplitWhole(second, a, b);
    }
    if Split(list, a, b) == [first, second] {
      SplitStep(list, a, b);
      FindsTheFirst(list, a, b);
      var n := FindSeparator(list, a, b);
      assert n < |list|;
      var parts := [list[..n]] + Split(list[n + 2..], a, b);
      assert parts == [first, second] && parts[0] == list[..n] && parts[1..] == Split(list[n + 2..], a, b);
      assert [first, second][1..] == [second];
      OnePart(list[n + 2..], a, b);
      assert list == list[..n] + [a, b] + list[n + 2..];
    }
  }

  /** Splitting finds exactly the items that stand between separators. */
  lemma SplitIff(list: seq<byte>, item: seq<byte>, a: byte, b: byte)
    requires a != b
    ensures item in Split(list, a, b) <==> Lists(list, item, a, b)
  {
    if item in Split(list, a, b) {
      var i := ItemsStand(list, item, a, b);
    }
    if Lists(list, item, a, b) {
      var i :| ItemAt(list, item, a, b, i);
      StandingIsItem(list, item, a, b, i);
    }
  }

  lemma {:induction false} InJoined(vs: seq<seq<byte>>, item: seq<byte>)
    requires vs != []
    ensures item in Split(Join(vs), COMMA, SP) <==> exists v :: v in vs && item in Split(v, COMMA, SP)
  {
    assert vs[0] in vs;
    if |vs| > 1 {
      InJoined(vs[1..], item);
      SplitOver(vs[0], Join(vs[1..]), COMMA, SP);
      assert forall v :: v in vs <==> v == vs[0] || v in vs[1..];
    } else {
      assert vs == [vs[0]];
    }
  }

  lemma {:induction false} ValuesMembers(headers: seq<Header>, name: seq<byte>, v: seq<byte>)
    ensures v in Values(headers, name) <==> Header(name, v) in headers
  {
    if headers != [] {
      ValuesMembers(headers[1..], name, v);
    }
  }

  /** Some Connection header lists keep-alive, as one of its items. */
  ghost predicate AsksToKeep(headers: seq<Header>) {
    exists v :: Header(CONNECTION, v) in headers && Lists(v, KEEP_ALIVE, COMMA, SP)
  }

  /** The connection is kept exactly when one of its Connection headers lists keep-alive. */
  lemma KeepAliveIff(rq: Request)
    ensures KeepAlive(rq) <==> AsksToKeep(rq.headers)
  {
    forall v
      ensures KEEP_ALIVE in Split(v, COMMA, SP) <==> Lists(v, KEEP_ALIVE, COMMA, SP)
    {
      SplitIff(v, KEEP_ALIVE, COMMA, SP);
    }
    hide Lists, Split;
    var vs := Values(rq.headers, CONNECTION);
    forall v
      ensures v in vs <==> Header(CONNECTION, v) in rq.headers
    {
      ValuesMembers(rq.headers, CONNECTION, v);
    }
    if vs != [] {
      InJoined(vs, KEEP_ALIVE);
    }
  }

  // ----- the one header of a name -----

  ghost predicate Named(headers: seq<Header>, name: seq<byte>, i: int) {
    0 <= i < |headers| && headers[i].name == name
  }

  /** The header at `i` alone has the name. */
  ghost predicate OnlyNamed(headers: seq<Header>, name: seq<byte>, i: int) {
    Named(headers, name, i) && forall j :: Named(headers, name, j) ==> j == i
  }

  lemma NamedLater(headers: seq<Header>, name: seq<byte>)
    requires headers != []
    ensures forall i :: Named(headers[1..], name, i) <==> i >= 0 && Named(headers, name, i + 1)
  {
  }

  lemma {:induction false} NoValue(headers: seq<Header>, name: seq<byte>)
    ensures Values(headers, name) == [] <==> forall i :: !Named(headers, name, i)
  {
    if headers != [] {
      NoValue(headers[1..], name);
      NamedLater(headers, name);
      assert headers[0].name == name ==> Named(headers, name, 0);
      assert forall i :: i != 0 && Named(headers, name, i) ==> Named(headers[1..], name, i - 1);
    }
  }

  lemma {:induction false} OneValue(headers: seq<Header>, name: seq<byte>) returns (i: int)
    requires |Values(headers, name)| == 1
    ensures OnlyNamed(headers, name, i) && Values(headers, name) == [headers[i].value]
  {
    NamedLater(headers, name);
    NoValue(headers[1..], name);
    if headers[0].name == name {
      i := 0;
    } else {
      var k := OneValue(headers[1..], name);
      i := k + 1;
    }
    forall j | Named(headers, name, j)
      ensures j == i
    {
      assert j != 0 ==> Named(headers[1..], name, j - 1);
    }
  }

  lemma {:induction false} SeveralValues(headers: seq<Header>, name: seq<byte>) returns (i: int, j: int)
    requires |Values(headers, name)| > 1
    ensures i < j && Named(headers, name, i) && Named(headers, name, j)
  {
    NamedLater(headers, name);
    if headers[0].name == name {
      NoValue(headers[1..], name);
      var k :| Named(headers[1..], name, k);
      i, j := 0, k + 1;
    } else {
      i, j := SeveralValues(headers[1..], name);
      i, j := i + 1, j + 1;
    }
  }

  /** A header is absent, repeated or unique exactly as the positions of its name say. */
  lemma UniqueHeaderIff(rq: Request, name: seq<byte>)
    ensures UniqueHeader(rq, name) == Found(None) <==> forall i :: !Named(rq.headers, name, i)
    ensures UniqueHeader(rq, name) == NotUnique <==>
            exists i, j :: i < j && Named(rq.headers, name, i) && Named(rq.headers, name, j)
    ensures forall i :: OnlyNamed(rq.headers, name, i) ==> UniqueHeader(rq, name) == Found(Some(rq.headers[i].value))
    ensures UniqueHeader(rq, name).Found? && UniqueHeader(rq, name).value.Some? ==>
              exists i :: OnlyNamed(rq.headers, name, i)
  {
    var vs := Values(rq.headers, name);
    NoValue(rq.headers, name);
    if |vs| == 1 {
      var i := OneValue(rq.headers, name);
    } else if |vs| > 1 {
      var i, j := SeveralValues(rq.headers, name);
    }
  }

  ghost predicate IsLength(value: seq<byte>) {
    AllDigits(value) && Decimal(value) < SIZE_T
  }

  /**
   A length is found exactly when one header alone has the name and holds a decimal number that
   fits; it is refused when two have the name, and when the only one holds anything else.
   */
  lemma ContentLengthIff(rq: Request, n: nat)
    ensures ContentLength(rq) == Found(Some(n)) <==>
            exists i :: OnlyNamed(rq.headers, CONTENT_LENGTH, i) && IsLength(rq.headers[i].value) &&
                        Decimal(rq.headers[i].value) == n
    ensures ContentLength(rq) == BadFormat <==>
            exists i :: OnlyNamed(rq.headers, CONTENT_LENGTH, i) && !IsLength(rq.headers[i].value)
    ensures ContentLength(rq) == NotUnique <==>
            exists i, j :: i < j && Named(rq.headers, CONTENT_LENGTH, i) && Named(rq.headers, CONTENT_LENGTH, j)
    ensures ContentLength(rq) == Found(None) <==> forall i :: !Named(rq.headers, CONTENT_LENGTH, i)
  {
    UniqueHeaderIff(rq, CONTENT_LENGTH);
  }

  // ----- printed numbers -----

  function Digits(n: nat): seq<byte> {
    if n < 10 then [48 + n] else Digits(n / 10) + [48 + n % 10]
  }

  /** Every number is the value of its digits. */
  lemma {:induction false} DigitsTell(n: nat)
    ensures AllDigits(Digits(n)) && Decimal(Digits(n)) == n
    ensures |Digits(n)| <= 2 + n / 100
  {
    var s := Digits(n);
    if n < 10 {
      assert s[..0] == [] && Decimal([]) == 0;
    } else {
      DigitsTell(n / 10);
      assert s[..|s| - 1] == Digits(n / 10);
      assert s[|s| - 1] == 48 + n % 10;
    }
  }

  /** A length printed into the only header of that name is found again, up to the largest that fits. */
  lemma PrintedLength(rq: Request, i: nat, n: nat)
    requires OnlyNamed(rq.headers, CONTENT_LENGTH, i) && rq.headers[i].value == Digits(n)
    ensures ContentLength(rq) == if n < SIZE_T then Found(Some(n)) else BadFormat
  {
    DigitsTell(n);
    UniqueHeaderIff(rq, CONTENT_LENGTH);
  }
}
