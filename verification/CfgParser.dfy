/**
 * GetCfgFn of install.c from the strtok loop on: one buffer, cut into lines, trimmed and compared in place by
 * writing terminators into it.
 */
module CfgParser {
  import opened CfgSpec

  /** buf[from..end] is a C string: its terminator is at end. */
  ghost predicate Terminated(s: string, from: nat, end: nat) {
    from <= end < |s| && s[end] == '\0' && forall i | from <= i < end :: s[i] != '\0'
  }

  /** From a place on, the buffer is as the file was read. */
  ghost predicate Fresh(now: string, s: string, from: nat) {
    |now| == |s| && forall i | from <= i < |s| :: now[i] == s[i]
  }

  /** A token: the next line starts at start, ends at end, and the search for another goes on at next. */
  ghost predicate Token(s: string, saved: nat, z: nat, start: nat, end: nat, next: nat) {
    && saved <= start < end <= next <= z < |s|
    && Lines(s[saved..z]) == [s[start..end]] + Lines(s[next..z])
  }

  /** strtok with "\n", continuing at the saved place; z is where the text s ends. */
  method StrTok(buf: array<char>, saved: nat, ghost s: string, ghost z: nat)
    returns (found: bool, start: nat, next: nat, ghost end: nat)
    requires Terminated(s, saved, z) && Fresh(buf[..], s, saved)
    modifies buf
    ensures found <==> Lines(s[saved..z]) != []
    ensures found ==> Token(s, saved, z, start, end, next) && Fresh(buf[..], s, next)
    ensures found ==> Terminated(buf[..], start, end) && buf[start..end] == s[start..end]
  {
    start := SkipNewlines(buf, saved, s, z);
    if buf[start] == '\0' {
      return false, start, start, start;
    }
    var e := start + 1;
    while buf[e] != '\0' && buf[e] != '\n'
      invariant start < e <= z && forall i | start <= i < e :: s[i] != '\n'
      decreases z - e
    {
      e := e + 1;
    }
    LineAt(s, start, e, z);
    hide Lines;
    end := e;
    next := if buf[e] == '\n' then e + 1 else e;
    found := true;
    if buf[e] == '\n' {
      buf[e] := '\0';
    }
  }

  method SkipNewlines(buf: array<char>, saved: nat, ghost s: string, ghost z: nat) returns (start: nat)
    requires Terminated(s, saved, z) && Fresh(buf[..], s, saved)
    ensures saved <= start <= z && s[start] != '\n' && Lines(s[saved..z]) == Lines(s[start..z])
  {
    start := saved;
    while buf[start] == '\n'
      invariant saved <= start <= z && Lines(s[saved..z]) == Lines(s[start..z])
      decreases z - start
    {
      assert s[start..z][1..] == s[start + 1..z];
      start := start + 1;
    }
  }

  lemma LineAt(s: string, start: nat, e: nat, z: nat)
    requires start < e <= z < |s| && (forall i | start <= i < e :: s[i] != '\n') && (e < z ==> s[e] == '\n')
    ensures Lines(s[start..z]) == [s[start..e]] + Lines(s[if e < z then e + 1 else e..z])
  {
    var t := s[start..z];
    FindIs(t, '\n', 0, e - start);
    assert t[..e - start] == s[start..e] && t[e - start..] == s[e..z];
    if e < z {
      assert s[e..z][1..] == s[e + 1..z];
    }
  }

  /** The string at a place, as strcmp and strdup see it. */
  method CString(buf: array<char>, from: nat, ghost end: nat) returns (s: string)
    requires Terminated(buf[..], from, end)
    ensures s == buf[from..end]
  {
    s := [];
    var i := from;
    while buf[i] != '\0'
      invariant from <= i <= end && s == buf[from..i]
      decreases end - i
    {
      s := s + [buf[i]];
      i := i + 1;
    }
  }

  /** The loops that move a pointer over white space. */
  method SkipSpace(buf: array<char>, from: nat, ghost end: nat) returns (i: nat)
    requires Terminated(buf[..], from, end)
    ensures from <= i <= end && buf[i..end] == TrimLeft(buf[from..end])
    ensures i < end ==> !IsSpace(buf[i])
  {
    i := from;
    while buf[i] != '\0' && IsSpace(buf[i])
      invariant from <= i <= end && TrimLeft(buf[from..end]) == TrimLeft(buf[i..end])
      decreases end - i
    {
      assert buf[i..end][1..] == buf[i + 1..end];
      i := i + 1;
    }
    assert i < end ==> buf[i..end][0] == buf[i];
  }

  /**
   * The loops that move a pointer back over white space, down to `from` but not past it, and terminate the string
   * there. The character at `from`, if there is one, is not white space.
   */
  method CutSpace(buf: array<char>, from: nat, end: nat) returns (ghost cut: nat)
    requires from <= end < buf.Length && (from < end ==> !IsSpace(buf[from]))
    modifies buf
    ensures from <= cut <= end && old(buf[from..cut]) == TrimRight(old(buf[from..end]))
    ensures buf[..] == old(buf[..])[cut := '\0']
  {
    var last: int := end - 1;
    while last > from && IsSpace(buf[last])
      invariant from - 1 <= last < end && TrimRight(buf[from..end]) == TrimRight(buf[from..last + 1])
      invariant last < from ==> last + 1 == end
    {
      assert buf[from..last + 1][..last - from] == buf[from..last];
      last := last - 1;
    }
    cut := last + 1;
    assert last >= from ==> buf[from..cut][cut - from - 1] == buf[last];
    buf[last + 1] := '\0';
  }

  /** Nothing is written outside from..end. */
  ghost predicate Kept(s: string, now: string, from: nat, end: nat) {
    |now| == |s| && forall i | 0 <= i < |s| && (i < from || i >= end) :: now[i] == s[i]
  }

  /** The value after the '=': trimmed on both sides. */
  method ReadValue(buf: array<char>, from: nat, ghost end: nat) returns (value: string)
    requires Terminated(buf[..], from, end)
    modifies buf
    ensures value == TrimRight(TrimLeft(old(buf[from..end])))
    ensures Kept(old(buf[..]), buf[..], from, end)
  {
    hide TrimLeft, TrimRight, IsSpace;
    ghost var s := buf[..];
    var valStart := SkipSpace(buf, from, end);
    var valLength := StrLen(buf, valStart, end);
    var valEnd := CutSpace(buf, valStart, valStart + valLength);
    value := CString(buf, valStart, valEnd);
    assert value == s[valStart..valEnd];
  }

  /** A line with its '=' found: cut the key, compare it and read the value. */
  method ReadPair(buf: array<char>, line: nat, equal: nat, ghost end: nat, key: string) returns (m: Meaning)
    requires Terminated(buf[..], line, end) && line <= equal < end && !IsSpace(buf[line]) && buf[equal] == '='
    modifies buf
    ensures m == if TrimRight(old(buf[line..equal])) == key
                 then Value(TrimRight(TrimLeft(old(buf[equal + 1..end])))) else Nothing
    ensures Kept(old(buf[..]), buf[..], line, end)
  {
    hide TrimLeft, TrimRight, IsSpace;
    ghost var s := buf[..];
    var keyEnd := CutSpace(buf, line, equal);
    var name := CString(buf, line, keyEnd);
    assert name == s[line..keyEnd];
    if key != name {
      return Nothing;
    }
    assert buf[equal + 1..end] == s[equal + 1..end];
    var value := ReadValue(buf, equal + 1, end);
    return Value(value);
  }

  /** The loop body on one line: what the line says about the key. */
  method ReadLine(buf: array<char>, start: nat, ghost end: nat, key: string) returns (m: Meaning)
    requires Terminated(buf[..], start, end)
    modifies buf
    ensures m == LineMeaning(old(buf[start..end]), key)
    ensures Kept(old(buf[..]), buf[..], start, end)
  {
    hide TrimLeft, TrimRight, IsSpace;
    var line := SkipSpace(buf, start, end);
    ghost var l := buf[line..end];
    if buf[line] == '\0' || buf[line] == '#' {
      return Nothing;
    }
    var equal := line;
    while buf[equal] != '\0' && buf[equal] != '='
      modifies {}
      invariant line <= equal <= end && forall i | line <= i < equal :: buf[i] != '='
      decreases end - equal
    {
      equal := equal + 1;
    }
    FindIs(l, '=', 0, equal - line);
    if buf[equal] == '\0' {
      return Malformed;
    }
    assert l[..equal - line] == buf[line..equal] && l[equal - line + 1..] == buf[equal + 1..end];
    m := ReadPair(buf, line, equal, end, key);
  }

  method StrLen(buf: array<char>, from: nat, ghost end: nat) returns (n: nat)
    requires Terminated(buf[..], from, end)
    ensures n == end - from
  {
    n := 0;
    while buf[from + n] != '\0'
      invariant from + n <= end
      decreases end - from - n
    {
      n := n + 1;
    }
  }

  /** A value, an abort at a malformed line, or a dereference of the null pointer strtok returned at once. */
  datatype Outcome = Returned(value: string) | Aborted | NullDereference

  /** The text a buffer holds: up to the first terminator. */
  function Text(s: string): string {
    s[..Find(s, '\0', 0)]
  }

  function Meant(m: Meaning): Outcome {
    match m
    case Value(v) => Returned(v)
    case _ => Aborted
  }

  lemma LookupStep(line: string, rest: seq<string>, key: string)
    ensures Lookup([line] + rest, key)
            == if LineMeaning(line, key) != Nothing then LineMeaning(line, key) else Lookup(rest, key)
  {
    assert ([line] + rest)[1..] == rest;
  }

  /** What a lookup means for the caller, in terms of the characters of the lines. */
  lemma {:induction false} OutcomeIs(lines: seq<string>, key: string)
    ensures Meant(Lookup(lines, key)) == Aborted <==> Stops(lines, key)
    ensures forall v :: Meant(Lookup(lines, key)) == Returned(v) <==> Gives(lines, key, v)
    ensures lines == [] ==> !Stops(lines, key)
  {
    hide Lookup, Gives;
    MalformedIs(lines, key);
    forall v ensures Lookup(lines, key) == Value(v) <==> Gives(lines, key, v) {
      ValueIs(lines, key, v);
    }
  }

  /** The strtok loop, with the buffer just read. */
  method GetCfg(buf: array<char>, key: string) returns (r: Outcome)
    requires buf.Length > 0 && buf[buf.Length - 1] == '\0'
    modifies buf
    ensures var lines := Lines(Text(old(buf[..])));
            && r == (if lines == [] then NullDereference else Meant(Lookup(lines, key)))
            && (r == Aborted <==> Stops(lines, key))
            && forall v :: r == Returned(v) <==> lines != [] && Gives(lines, key, v)
  {
    ghost var s := buf[..];
    ghost var z := Find(s, '\0', 0);
    assert s[0..z] == Text(s);
    hide Lines, Find, LineMeaning, Lookup, Stops, Gives;
    OutcomeIs(Lines(Text(s)), key);
    var found, start, next, end := StrTok(buf, 0, s, z);
    if !found {
      return NullDereference;
    }
    ghost var saved := 0;
    while true
      invariant Token(s, saved, z, start, end, next) && Fresh(buf[..], s, next)
      invariant Terminated(buf[..], start, end) && buf[start..end] == s[start..end]
      invariant Lookup(Lines(Text(s)), key) == Lookup(Lines(s[saved..z]), key)
      decreases z - start
    {
      LookupStep(s[start..end], Lines(s[next..z]), key);
      var m := ReadLine(buf, start, end, key);
      if m != Nothing {
        return Meant(m);
      }
      saved := next;
      found, start, next, end := StrTok(buf, next, s, z);
      if !found {
        LookupEmpty(key);
        return Returned("");
      }
    }
  }

  lemma LookupEmpty(key: string)
    ensures Lookup([], key) == Value("")
  {}

  /** The null pointer is dereferenced exactly when the text has nothing but newlines. */
  lemma {:induction false} NoLines(t: string)
    ensures Lines(t) == [] <==> forall i | 0 <= i < |t| :: t[i] == '\n'
    decreases |t|
  {
    if t != [] && t[0] == '\n' {
      NoLines(t[1..]);
      assert forall i | 1 <= i < |t| :: t[i] == t[1..][i - 1];
    }
  }

  /** A file with at least one pair, written out with any comments and white space, gives its values back. */
  method WrittenAndRead(items: seq<Item>, key: string) returns (r: Outcome)
    requires forall i | 0 <= i < |items| :: Writable(items[i])
    requires '\0' !in Render(items) && exists i | 0 <= i < |items| :: items[i].Pair?
    ensures r == Returned(FirstValue(items, key))
  {
    var text := Render(items);
    var buf := new char[|text| + 1](i requires 0 <= i <= |text| => if i < |text| then text[i] else '\0');
    assert buf[..] == text + "\0";
    FindIs(buf[..], '\0', 0, |text|);
    assert Text(buf[..]) == text;
    RoundTrip(items, key);
    SomeLine(items);
    r := GetCfg(buf, key);
  }

  lemma {:induction false} SomeLine(items: seq<Item>)
    requires forall i | 0 <= i < |items| :: Writable(items[i])
    requires exists i | 0 <= i < |items| :: items[i].Pair?
    ensures Lines(Render(items)) != []
  {
    var item, rest := items[0], Render(items[1..]);
    assert '\n' !in RenderLine(item);
    LinesCut(RenderLine(item), rest);
    if !item.Pair? {
      var i :| 0 <= i < |items| && items[i].Pair?;
      assert items[1..][i - 1].Pair?;
      SomeLine(items[1..]);
    }
  }
}
