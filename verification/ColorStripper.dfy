/**
 Removal of terminal control sequences from help text: removeColors in src/command_line.cpp.
 The byte ranges are those of section 5.4 of ECMA-48 (control sequences).
 */
module ColorStripper {
  import opened Basics

  const ESC: char := '\U{1B}'

  predicate IsParameter(c: char) { '0' <= c <= '?' }
  predicate IsIntermediate(c: char) { ' ' <= c <= '/' }
  predicate IsFinal(c: char) { '@' <= c <= '~' }

  // ----- reference definition -----

  function SkipParameters(s: string): (r: string)
    ensures |r| <= |s|
  {
    if s != [] && IsParameter(s[0]) then SkipParameters(s[1..]) else s
  }

  function SkipIntermediates(s: string): (r: string)
    ensures |r| <= |s|
  {
    if s != [] && IsIntermediate(s[0]) then SkipIntermediates(s[1..]) else s
  }

  /** Drops intermediate bytes and, when it is there, the final byte. */
  function AfterParameters(s: string): (r: string)
    ensures |r| <= |s|
  {
    var t := SkipIntermediates(s);
    if t != [] && IsFinal(t[0]) then t[1..] else t
  }

  /** What is left of `s` once the control sequence whose introducer came just before is dropped. */
  function AfterIntroducer(s: string): (r: string)
    ensures |r| <= |s|
  {
    AfterParameters(SkipParameters(s))
  }

  function Strip(s: string): string
    decreases |s|
  {
    if s == [] then []
    else if s[0] != ESC then [s[0]] + Strip(s[1..])
    else if |s| > 1 && s[1] == '[' then Strip(AfterIntroducer(s[2..]))
    else Strip(s[1..])
  }

  // ----- the in-place automaton -----

  datatype State = Normal | Esc | ControlStart | ControlIntermediate

  /** What the automaton still owes for the unread text `t`. */
  ghost function StripFrom(state: State, t: string): string {
    match state
    case Normal => Strip(t)
    case Esc => if t != [] && t[0] == '[' then Strip(AfterIntroducer(t[1..])) else Strip(t)
    case ControlStart => Strip(AfterIntroducer(t))
    case ControlIntermediate => Strip(AfterParameters(t))
  }

  /** The state after `c`, or nothing when the automaton starts over at `c` from its normal state. */
  ghost function Within(state: State, c: char): Option<State> {
    match state
    case Normal => None
    case Esc => if c == '[' then Some(ControlStart) else None
    case ControlStart =>
      if IsParameter(c) then Some(ControlStart)
      else if IsIntermediate(c) then Some(ControlIntermediate)
      else if IsFinal(c) then Some(Normal)
      else None
    case ControlIntermediate =>
      if IsIntermediate(c) then Some(ControlIntermediate)
      else if IsFinal(c) then Some(Normal)
      else None
  }

  lemma StripFromNormal(t: string)
    ensures StripFrom(Normal, t) == Strip(t)
  {
  }

  lemma StripFromNothing(state: State)
    ensures StripFrom(state, []) == []
  {
  }

  lemma OweAfter(state: State, t: string)
    requires t != []
    ensures StripFrom(state, t) ==
            match Within(state, t[0]) case Some(next) => StripFrom(next, t[1..]) case None => Strip(t)
  {
  }

  lemma OweRestarted(t: string)
    requires t != []
    ensures Strip(t) == if t[0] == ESC then StripFrom(Esc, t[1..]) else [t[0]] + Strip(t[1..])
  {
    assert |t| > 1 ==> t[1..][1..] == t[2..];
  }

  /** The character at `j` of `out` is the one at `from[j]`, not before `j`, of `text`; the order is kept. */
  ghost predicate Kept(out: string, text: string, from: seq<nat>) {
    && |out| == |from|
    && (forall j :: 0 <= j < |out| ==> j <= from[j] < |text| && out[j] == text[from[j]])
    && (forall j, k :: 0 <= j < k < |out| ==> from[j] < from[k])
  }

  lemma KeptLonger(out: string, text: string, from: seq<nat>, c: char)
    requires Kept(out, text, from)
    ensures Kept(out, text + [c], from)
  {
  }

  lemma KeptMore(out: string, text: string, from: seq<nat>, c: char)
    requires Kept(out, text, from) && |out| <= |text|
    ensures Kept(out + [c], text + [c], from + [|text|])
  {
  }

  /** The first `i` characters have been read, and `out` is what has been written. */
  ghost predicate Progress(out: string, from: seq<nat>, state: State, text: string, i: nat) {
    i <= |text| && |out| <= i && Kept(out, text[..i], from) && out + StripFrom(state, text[i..]) == Strip(text)
  }

  lemma OneRead(text: string, i: nat)
    requires i < |text|
    ensures text[..i + 1] == text[..i] + [text[i]] && text[i..][0] == text[i] && text[i..][1..] == text[i + 1..]
  {
  }

  lemma ProgressStart(text: string)
    ensures Progress([], [], Normal, text, 0)
  {
    assert text[0..] == text && [] + Strip(text) == Strip(text);
  }

  lemma ProgressWithin(out: string, from: seq<nat>, state: State, text: string, i: nat, next: State)
    requires i < |text| && Progress(out, from, state, text, i) && Within(state, text[i]) == Some(next)
    ensures Progress(out, from, next, text, i + 1)
  {
    hide Strip, StripFrom, Within, Kept;
    OneRead(text, i);
    KeptLonger(out, text[..i], from, text[i]);
    OweAfter(state, text[i..]);
  }

  lemma ProgressEscape(out: string, from: seq<nat>, state: State, text: string, i: nat)
    requires i < |text| && Progress(out, from, state, text, i) && Within(state, text[i]).None? && text[i] == ESC
    ensures Progress(out, from, Esc, text, i + 1)
  {
    hide Strip, StripFrom, Within, Kept;
    OneRead(text, i);
    KeptLonger(out, text[..i], from, text[i]);
    OweAfter(state, text[i..]);
    OweRestarted(text[i..]);
  }

  lemma ProgressWritten(out: string, from: seq<nat>, state: State, text: string, i: nat)
    requires i < |text| && Progress(out, from, state, text, i) && Within(state, text[i]).None? && text[i] != ESC
    ensures Progress(out + [text[i]], from + [i], Normal, text, i + 1)
  {
    hide Strip, StripFrom, Within, Kept;
    var c, rest := text[i], text[i + 1..];
    OneRead(text, i);
    KeptMore(out, text[..i], from, c);
    OweAfter(state, text[i..]);
    OweRestarted(text[i..]);
    StripFromNormal(rest);
    Regroup(out, [c], Strip(rest));
  }

  lemma Regroup(a: string, b: string, c: string)
    ensures a + (b + c) == (a + b) + c
  {
  }

  lemma ProgressEnd(out: string, from: seq<nat>, state: State, text: string)
    requires Progress(out, from, state, text, |text|)
    ensures Kept(out, text, from) && out == Strip(text)
  {
    assert text[..|text|] == text && text[|text|..] == [];
    StripFromNothing(state);
  }

  /**
   `len` is the new length of the string. What is written at `j` was read at `from[j]`, so nothing is
   written ahead of the reading position.
   */
  method RemoveColors(str: array<char>) returns (len: nat, ghost from: seq<nat>)
    modifies str
    ensures len <= str.Length && Kept(str[..len], old(str[..]), from)
    ensures str[..len] == Strip(old(str[..]))
    ensures forall k :: len <= k < str.Length ==> str[k] == old(str[k])
  {
    hide Strip, Progress, Kept;
    var state := Normal;
    len, from := 0, [];
    ghost var text := str[..];
    ProgressStart(text);
    for i := 0 to str.Length
      invariant len <= i
      invariant forall k :: len <= k < str.Length ==> str[k] == text[k]
      invariant Progress(str[..len], from, state, text, i)
    {
      var c := str[i];
      var restart := false;
      ghost var was := state;
      match state {
        case Normal =>
          restart := true;
        case Esc =>
          if c == '[' { state := ControlStart; } else { restart := true; }
        case ControlStart =>
          if IsParameter(c) {
          } else if IsIntermediate(c) {
            state := ControlIntermediate;
          } else if IsFinal(c) {
            state := Normal;
          } else {
            restart := true;
          }
        case ControlIntermediate =>
          if IsIntermediate(c) {
          } else if IsFinal(c) {
            state := Normal;
          } else {
            restart := true;
          }
      }
      assert Within(was, c) == if restart then None else Some(state);
      if !restart {
        ProgressWithin(str[..len], from, was, text, i, state);
      } else if c == ESC {
        ProgressEscape(str[..len], from, was, text, i);
        state := Esc;
      } else {
        ProgressWritten(str[..len], from, was, text, i);
        state := Normal;
        ghost var before := str[..len];
        str[len] := c;
        from, len := from + [i], len + 1;
        assert str[..len] == before + [c];
      }
    }
    ProgressEnd(str[..len], from, state, text);
  }

  // ----- what stripping means -----

  /**
   A text is made of plain text, complete control sequences, sequences that are broken off by what
   comes next, and ESC that introduces nothing.
   */
  datatype Part =
    | Text(text: string)
    | Control(parameters: string, intermediates: string, final: char)
    | Broken(parameters: string, intermediates: string)
    | Lone

  ghost predicate Between(c: char, lo: int, hi: int) { lo <= c as int <= hi }

  ghost predicate AllBetween(s: string, lo: int, hi: int) { forall c :: c in s ==> Between(c, lo, hi) }

  /** The part can stand before `rest`; the byte ranges are those of the standard. */
  ghost predicate Fits(p: Part, rest: string) {
    match p
    case Text(t) => ESC !in t
    case Control(ps, ims, f) => AllBetween(ps, 0x30, 0x3F) && AllBetween(ims, 0x20, 0x2F) && Between(f, 0x40, 0x7E)
    case Broken(ps, ims) =>
      && AllBetween(ps, 0x30, 0x3F) && AllBetween(ims, 0x20, 0x2F)
      && (rest != [] ==>
            if ims == [] then !Between(rest[0], 0x20, 0x7E)
            else !Between(rest[0], 0x20, 0x2F) && !Between(rest[0], 0x40, 0x7E))
    case Lone => rest != [] ==> rest[0] != '['
  }

  ghost predicate WellFormed(parts: seq<Part>) {
    parts != [] ==> Fits(parts[0], Print(parts[1..])) && WellFormed(parts[1..])
  }

  ghost function PrintPart(p: Part): string {
    match p
    case Text(t) => t
    case Control(ps, ims, f) => [ESC, '['] + ps + ims + [f]
    case Broken(ps, ims) => [ESC, '['] + ps + ims
    case Lone => [ESC]
  }

  ghost function Print(parts: seq<Part>): string {
    if parts == [] then [] else PrintPart(parts[0]) + Print(parts[1..])
  }

  ghost function Plain(parts: seq<Part>): string {
    if parts == [] then [] else (if parts[0].Text? then parts[0].text else []) + Plain(parts[1..])
  }

  lemma {:induction false} SkipParametersOver(ps: string, rest: string)
    requires forall c :: c in ps ==> IsParameter(c)
    requires rest != [] ==> !IsParameter(rest[0])
    ensures SkipParameters(ps + rest) == rest
  {
    if ps == [] {
      assert ps + rest == rest;
    } else {
      assert (ps + rest)[1..] == ps[1..] + rest;
      SkipParametersOver(ps[1..], rest);
    }
  }

  lemma {:induction false} SkipIntermediatesOver(ims: string, rest: string)
    requires forall c :: c in ims ==> IsIntermediate(c)
    requires rest != [] ==> !IsIntermediate(rest[0])
    ensures SkipIntermediates(ims + rest) == rest
  {
    if ims == [] {
      assert ims + rest == rest;
    } else {
      assert (ims + rest)[1..] == ims[1..] + rest;
      SkipIntermediatesOver(ims[1..], rest);
    }
  }

  lemma {:induction false} StripText(t: string, rest: string)
    requires ESC !in t
    ensures Strip(t + rest) == t + Strip(rest)
  {
    if t == [] {
      assert t + rest == rest;
    } else {
      assert (t + rest)[1..] == t[1..] + rest;
      StripText(t[1..], rest);
    }
  }

  lemma AfterSequence(ps: string, ims: string, rest: string)
    requires AllBetween(ps, 0x30, 0x3F) && AllBetween(ims, 0x20, 0x2F)
    requires rest != [] ==> !IsIntermediate(rest[0]) && (ims == [] ==> !IsParameter(rest[0]))
    ensures AfterIntroducer(ps + (ims + rest)) == if rest != [] && IsFinal(rest[0]) then rest[1..] else rest
  {
    var tail := ims + rest;
    assert tail != [] ==> tail[0] == if ims == [] then rest[0] else ims[0];
    assert ims != [] ==> ims[0] in ims;
    SkipParametersOver(ps, tail);
    SkipIntermediatesOver(ims, rest);
  }

  lemma StripIntroduced(t: string)
    ensures Strip([ESC, '['] + t) == Strip(AfterIntroducer(t))
  {
    assert ([ESC, '['] + t)[2..] == t;
  }

  lemma Introduced(ps: string, ims: string, rest: string)
    ensures [ESC, '['] + ps + ims + rest == [ESC, '['] + (ps + (ims + rest))
  {
  }

  lemma StripSequence(ps: string, ims: string, rest: string)
    requires AllBetween(ps, 0x30, 0x3F) && AllBetween(ims, 0x20, 0x2F)
    requires rest != [] ==> !IsIntermediate(rest[0]) && (ims == [] ==> !IsParameter(rest[0]))
    ensures Strip([ESC, '['] + ps + ims + rest) == Strip(if rest != [] && IsFinal(rest[0]) then rest[1..] else rest)
  {
    hide Strip, AfterIntroducer;
    Introduced(ps, ims, rest);
    StripIntroduced(ps + (ims + rest));
    AfterSequence(ps, ims, rest);
  }

  lemma StripComplete(ps: string, ims: string, f: char, rest: string)
    requires AllBetween(ps, 0x30, 0x3F) && AllBetween(ims, 0x20, 0x2F) && Between(f, 0x40, 0x7E)
    ensures Strip([ESC, '['] + ps + ims + [f] + rest) == Strip(rest)
  {
    StripSequence(ps, ims, [f] + rest);
    Regroup([ESC, '['] + ps + ims, [f], rest);
    assert ([f] + rest)[1..] == rest;
  }

  lemma StripPart(p: Part, rest: string)
    requires Fits(p, rest)
    ensures Strip(PrintPart(p) + rest) == (if p.Text? then p.text else []) + Strip(rest)
  {
    match p
    case Text(t) => StripText(t, rest);
    case Control(ps, ims, f) => StripComplete(ps, ims, f, rest);
    case Broken(ps, ims) => StripSequence(ps, ims, rest);
    case Lone => assert ([ESC] + rest)[1..] == rest;
  }

  /**
   Complete control sequences, broken ones and lone ESC vanish; all other text stays, in particular the
   byte that breaks a sequence off and the one after a lone ESC.
   */
  lemma {:induction false} StripKeepsText(parts: seq<Part>)
    requires WellFormed(parts)
    ensures Strip(Print(parts)) == Plain(parts)
  {
    if parts != [] {
      hide Strip, Fits, PrintPart;
      StripPart(parts[0], Print(parts[1..]));
      StripKeepsText(parts[1..]);
      assert Plain(parts) == (if parts[0].Text? then parts[0].text else []) + Plain(parts[1..]);
    }
  }

  lemma {:induction false} ParametersOf(s: string) returns (ps: string)
    ensures s == ps + SkipParameters(s) && AllBetween(ps, 0x30, 0x3F)
    ensures var rest := SkipParameters(s); rest != [] ==> !IsParameter(rest[0])
  {
    if s != [] && IsParameter(s[0]) {
      var others := ParametersOf(s[1..]);
      ps := [s[0]] + others;
    } else {
      ps := [];
    }
  }

  lemma {:induction false} IntermediatesOf(s: string) returns (ims: string)
    ensures s == ims + SkipIntermediates(s) && AllBetween(ims, 0x20, 0x2F)
    ensures var rest := SkipIntermediates(s); rest != [] ==> !IsIntermediate(rest[0])
  {
    if s != [] && IsIntermediate(s[0]) {
      var others := IntermediatesOf(s[1..]);
      ims := [s[0]] + others;
    } else {
      ims := [];
    }
  }

  /** The part at the front of a text, and what follows it. */
  lemma FirstPart(s: string) returns (p: Part, rest: string)
    requires s != []
    ensures s == PrintPart(p) + rest && Fits(p, rest) && |rest| < |s|
  {
    if s[0] != ESC {
      p, rest := Text([s[0]]), s[1..];
    } else if |s| == 1 || s[1] != '[' {
      p, rest := Lone, s[1..];
    } else {
      var ps := ParametersOf(s[2..]);
      var t := SkipParameters(s[2..]);
      var ims := IntermediatesOf(t);
      rest := SkipIntermediates(t);
      assert ims == [] ==> t == rest;
      assert s == [ESC, '['] + ps + ims + rest;
      if rest != [] && IsFinal(rest[0]) {
        assert rest == [rest[0]] + rest[1..];
        p, rest := Control(ps, ims, rest[0]), rest[1..];
      } else {
        p := Broken(ps, ims);
      }
    }
  }

  /** Every text is made of such parts. */
  lemma {:induction false} EveryTextIsParts(s: string) returns (parts: seq<Part>)
    ensures WellFormed(parts) && Print(parts) == s
    decreases |s|
  {
    parts := [];
    if s != [] {
      var first, rest := FirstPart(s);
      var others := EveryTextIsParts(rest);
      parts := [first] + others;
      assert parts[1..] == others;
    }
  }

  /** Inserting complete control sequences at any positions of ESC-free text changes nothing. */
  lemma {:induction false} InsertedSequencesVanish(parts: seq<Part>)
    requires forall p :: p in parts ==> (p.Text? || p.Control?) && Fits(p, [])
    ensures WellFormed(parts) && Strip(Print(parts)) == Plain(parts)
  {
    if parts != [] {
      assert parts[0] in parts && forall p :: p in parts[1..] ==> p in parts;
      InsertedSequencesVanish(parts[1..]);
      StripKeepsText(parts);
    }
  }

  lemma {:induction false} StripLeavesNoEsc(s: string)
    ensures ESC !in Strip(s)
    decreases |s|
  {
    if s == [] {
    } else if s[0] != ESC {
      StripLeavesNoEsc(s[1..]);
    } else if |s| > 1 && s[1] == '[' {
      StripLeavesNoEsc(AfterIntroducer(s[2..]));
    } else {
      StripLeavesNoEsc(s[1..]);
    }
  }

  lemma StripIdempotent(s: string)
    ensures Strip(Strip(s)) == Strip(s)
  {
    StripLeavesNoEsc(s);
    StripText(Strip(s), []);
    assert Strip(s) + [] == Strip(s);
  }

  /** Text is left alone exactly when it holds no ESC. */
  lemma StripIdentityIff(s: string)
    ensures Strip(s) == s <==> ESC !in s
  {
    StripLeavesNoEsc(s);
    if ESC !in s {
      StripText(s, []);
      assert s + [] == s;
    }
  }
}
