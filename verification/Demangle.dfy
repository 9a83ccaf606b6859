/** The demangler's parsers as they run: positions advance through loops and out-parameters.
    Each leaves its position where it was unless it succeeds. */
module Demangle {
  import opened Mangling

  /** The position after a parser that started at `pos`. */
  function After(pos: nat, r: Res): nat {
    if r.Ok? then r.next else pos
  }

  /** tryDemangleName */
  method TryName(s: string, start: nat) returns (r: Res, pos': nat)
    requires start <= |s|
    ensures r == ParseName(s, start) && pos' == After(start, r)
  {
    hide NameEnd, Strip;
    var end := MatchName(s, start);
    if end == start { return Fail, start; }
    var out := CopyDown(s, start, end);
    return Ok(out, end), end;
  }

  /** The first pass: how much matches. */
  method MatchName(s: string, start: nat) returns (pos: nat)
    requires start <= |s|
    ensures pos == NameEnd(s, start, start)
  {
    pos := start;
    while pos < |s|
      invariant start <= pos <= |s| && NameEnd(s, start, pos) == NameEnd(s, start, start)
    {
      if IsAlpha(s[pos]) {
        pos := pos + 1;
        continue;
      }
      if pos == start { break; }
      if IsDigit(s[pos]) {
        pos := pos + 1;
        continue;
      }
      if s[pos] == '_' && At(s, pos + 1) == '_' {
        pos := pos + 2;
        continue;
      }
      break;
    }
  }

  /** The second pass: copy down, unescaping. */
  method CopyDown(s: string, start: nat, end: nat) returns (out: string)
    requires start <= end <= |s|
    ensures out == Strip(s[start..end])
  {
    hide Strip;
    out := "";
    var pos := start;
    assert start == end ==> s[start..end] == "";
    assert out + Strip(s[start..end]) == Strip(s[start..end]);
    while pos < end
      invariant start <= pos <= end + 1
      invariant out + Strip(if pos < end then s[pos..end] else "") == Strip(s[start..end])
      decreases end - pos
    {
      StripStep(s[pos..end]);
      assert s[pos..end][1..] == s[pos + 1..end];
      assert pos + 1 < end ==> s[pos..end][2..] == s[pos + 2..end];
      out := out + [s[pos]];
      if s[pos] == '_' { pos := pos + 1; }
      pos := pos + 1;
    }
    StripNone();
  }

  lemma StripNone()
    ensures Strip("") == ""
  {
  }

  lemma StripStep(raw: string)
    requires raw != ""
    ensures Strip(raw) == [raw[0]] + Strip(if raw[0] != '_' then raw[1..] else if |raw| == 1 then "" else raw[2..])
  {
  }

  /** tryDemangleNumber; 0 stands for no number. */
  method TryNumber(s: string, start: nat) returns (num: nat, pos: nat)
    requires start <= |s|
    ensures (num, pos) == ParseNumber(s, start, 0)
  {
    pos, num := start, 0;
    while IsDigit(At(s, pos))
      invariant start <= pos <= |s| && ParseNumber(s, pos, num) == ParseNumber(s, start, 0)
      decreases |s| - pos
    {
      num := 10 * num + (s[pos] - '0') as nat;
      pos := pos + 1;
    }
  }

  /** The copy loop of tryDemangleType. */
  method CopyName(s: string, start: nat, length: nat) returns (r: Res)
    requires start <= |s|
    ensures r == Copy(s, start, length)
  {
    var pos, out := start, 0;
    var str: string := "";
    while out < length
      invariant start <= pos <= |s| && out <= length
      invariant Copy(s, start, length) == Onto(str, Copy(s, pos, length - out))
      decreases length - out
    {
      if pos == |s| { return Overrun; }
      if s[pos] == '_' {
        if At(s, pos + 1) != '_' { return Fail; }
        pos := pos + 1;
      }
      OntoStep(str, s[pos], Copy(s, pos + 1, length - out - 1));
      str := str + [s[pos]];
      pos := pos + 1;
      out := out + 1;
    }
    return Ok(str, pos);
  }

  function Onto(str: string, r: Res): Res {
    if r.Ok? then Ok(str + r.text, r.next) else r
  }

  lemma OntoStep(str: string, c: char, r: Res)
    ensures Onto(str, Prefixed(c, r)) == Onto(str + [c], r)
  {
    if r.Ok? { assert str + ([c] + r.text) == str + [c] + r.text; }
  }

  /** tryDemangleType */
  method TryType(s: string, start: nat) returns (r: Res, pos': nat)
    requires start <= |s|
    ensures r == ParseType(s, start) && pos' == After(start, r)
    decreases |s| - start, 1
  {
    var c := At(s, start);
    if c == 'i' { return Ok("int", start + 1), start + 1; }
    if c == 'b' { return Ok("bool", start + 1), start + 1; }
    if c == 'r' {
      var length, pos := TryNumber(s, start + 1);
      if length == 0 { return Fail, start; }
      r := CopyName(s, pos, length);
      return r, After(start, r);
    }
    if c == 'a' {
      var elem, pos := TryType(s, start + 1);
      if elem.Ok? { return Ok(elem.text + "[]", pos), pos; }
      return elem, start;
    }
    if c == 't' {
      var n, pos := TryNumber(s, start + 1);
      if n != 0 {
        r := TryTuple(s, pos, n);
        return r, After(start, r);
      }
    }
    return Fail, start;
  }

  /** The loop over the components of a tuple. */
  method TryTuple(s: string, start: nat, n: nat) returns (r: Res)
    requires start <= |s| && n > 0
    ensures var comps := ParseComps(s, start, n);
      r == if comps.Ok? then Ok("(" + comps.text + ")", comps.next) else comps
    decreases |s| - start, 2
  {
    var text, pos, c := "(", start, 0;
    while c < n
      invariant 0 <= c <= n && start <= pos <= |s|
      invariant c < n ==>
        Onto("(", ParseComps(s, start, n)) == Onto(text + (if c > 0 then ", " else ""), ParseComps(s, pos, n - c))
      invariant c == n ==> Onto("(", ParseComps(s, start, n)) == Ok(text, pos)
      invariant c == 0 ==> pos == start && text == "("
      invariant c > 0 ==> start < pos
    {
      var comp, next := TryType(s, pos);
      if !comp.Ok? { return comp; }
      CompStep(text + (if c > 0 then ", " else ""), s, pos, n - c);
      if c > 0 { text := text + ", "; }
      text := text + comp.text;
      pos := next;
      c := c + 1;
    }
    var comps := ParseComps(s, start, n);
    assert "(" + comps.text + ")" == text + ")";
    return Ok(text + ")", pos);
  }

  lemma CompStep(text: string, s: string, pos: nat, n: nat)
    requires pos <= |s| && n > 0 && ParseType(s, pos).Ok?
    ensures var r := ParseType(s, pos);
      && (n == 1 ==> Onto(text, ParseComps(s, pos, n)) == Ok(text + r.text, r.next))
      && (n > 1 ==> Onto(text, ParseComps(s, pos, n)) == Onto(text + r.text + ", ", ParseComps(s, r.next, n - 1)))
  {
    var r := ParseType(s, pos);
    if n > 1 {
      var rest := ParseComps(s, r.next, n - 1);
      if rest.Ok? { assert text + (r.text + ", " + rest.text) == text + r.text + ", " + rest.text; }
    }
  }

  /** tryDemangleEtaSetup */
  method TrySetup(s: string, start: nat) returns (r: Res, pos': nat)
    requires start <= |s|
    ensures r == ParseSetup(s, start) && pos' == After(start, r)
  {
    var kind, pos := TryName(s, start);
    if !kind.Ok? { return Fail, start; }
    if At(s, pos) != '_' { return Fail, start; }
    pos := pos + 1;
    var name;
    name, pos := TryName(s, pos);
    if !name.Ok? { return Fail, start; }
    var prefix := "";
    if kind.text == "vt" { prefix := "Eta vtable for "; }
    if kind.text == "size" { prefix := "Eta size of "; }
    if kind.text == "init" { prefix := "Eta init of "; }
    if prefix != "" { return Ok(prefix + name.text, pos), pos; }
    return Fail, start;
  }

  /** tryDemangleEtaGlobal */
  method TryGlobal(s: string, start: nat) returns (r: Res, pos': nat)
    requires start <= |s|
    ensures r == ParseGlobal(s, start) && pos' == After(start, r)
  {
    var kind, pos := TryName(s, start);
    if !kind.Ok? { return Fail, start; }
    if At(s, pos) != '_' || kind.text != "g" { return Fail, start; }
    pos := pos + 1;
    var name, t;
    name, pos := TryName(s, pos);
    if !name.Ok? { return Fail, start; }
    if At(s, pos) != '_' { return Fail, start; }
    pos := pos + 1;
    t, pos := TryType(s, pos);
    if !t.Ok? { return t, start; }
    return Ok(name.text + ": " + t.text, pos), pos;
  }

  /** startsWith, as a test. */
  method HasPrefix(s: string, start: nat, prefix: string) returns (r: bool)
    ensures r == StartsWith(s, start, prefix)
  {
    var k := 0;
    while k < |prefix|
      invariant k <= |prefix| && forall i :: 0 <= i < k ==> At(s, start + i) == prefix[i]
    {
      if At(s, start + k) != prefix[k] { return false; }
      k := k + 1;
    }
    return true;
  }

  /** tryDemangleSymbol */
  method TrySymbol(s: string, start: nat) returns (r: Res, pos': nat)
    requires start <= |s|
    ensures r == ParseSymbol(s, start) && pos' == After(start, r)
  {
    hide StartsWith, ParseSetup, ParseGlobal, ParseFunction;
    var alloc := HasPrefix(s, start, ALLOC);
    if alloc { return Ok("[etaruntime]alloc(int): ?[]", start + |ALLOC|), start + |ALLOC|; }
    var oob := HasPrefix(s, start, OUT_OF_BOUNDS);
    if oob { return Ok("[etaruntime]out_of_bounds()", start + |OUT_OF_BOUNDS|), start + |OUT_OF_BOUNDS|; }
    if At(s, start) != '_' || At(s, start + 1) != 'I' { return Fail, start; }
    var pos := start + 2;
    if At(s, pos) == '_' {
      pos := pos + 1;
      r, pos := TrySetup(s, pos);
      if r.Ok? { return r, pos; }
      r, pos := TryGlobal(s, pos);
      if !r.Fail? { return r, After(start, r); }
    }
    r := TryFunction(s, pos);
    return r, After(start, r);
  }

  /** The rest of tryDemangleSymbol: name, result type and arguments of a function. */
  method TryFunction(s: string, start: nat) returns (r: Res)
    requires start <= |s|
    ensures r == ParseFunction(s, start)
  {
    hide ParseName, ParseType, ParseArgs;
    var name, pos := TryName(s, start);
    if !name.Ok? { return Fail; }
    if At(s, pos) != '_' { return Fail; }
    pos := pos + 1;
    var result := "";
    if At(s, pos) == 'p' {
      pos := pos + 1;
    } else {
      var t;
      t, pos := TryType(s, pos);
      if !t.Ok? { return t; }
      result := ": " + t.text;
    }
    var args := TryArgs(s, pos);
    if !args.Ok? { return args; }
    return Ok(name.text + "(" + args.text + ")" + result, args.next);
  }

  /** The loop over the arguments. */
  method TryArgs(s: string, start: nat) returns (r: Res)
    requires start <= |s|
    ensures r == ParseArgs(s, start, true)
  {
    hide ParseType;
    var pos, first := start, true;
    var text: string := "";
    while true
      invariant start <= pos <= |s|
      invariant ParseArgs(s, start, true) == Onto(text, ParseArgs(s, pos, first))
      decreases |s| - pos
    {
      var t, next := TryType(s, pos);
      if t.Fail? { return Ok(text, pos); }
      if t.Overrun? { return t; }
      ArgStep(text, s, pos, first);
      if !first { text := text + ", "; }
      text := text + t.text;
      first := false;
      pos := next;
    }
  }

  lemma ArgStep(text: string, s: string, pos: nat, first: bool)
    requires pos <= |s| && ParseType(s, pos).Ok?
    ensures var t := ParseType(s, pos);
      Onto(text, ParseArgs(s, pos, first)) ==
        Onto((if first then text else text + ", ") + t.text, ParseArgs(s, t.next, false))
  {
    var t := ParseType(s, pos);
    var rest := ParseArgs(s, t.next, false);
    if rest.Ok? {
      var sep := if first then "" else ", ";
      assert text + (sep + t.text + rest.text) == text + sep + t.text + rest.text;
      assert first ==> text + sep == text;
    }
  }
}
