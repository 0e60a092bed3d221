/** The meaning of a key=value file, as GetCfgFn of install.c documents it: lines, comments, blanks, trimmed fields. */
module CfgSpec {

  /** isspace in the C locale. */
  predicate IsSpace(c: char) {
    c == ' ' || c == '\t' || c == '\n' || c == '\U{0B}' || c == '\U{0C}' || c == '\r'
  }

  predicate AllSpace(s: string) {
    forall i | 0 <= i < |s| :: IsSpace(s[i])
  }

  function TrimLeft(s: string): string {
    if s != [] && IsSpace(s[0]) then TrimLeft(s[1..]) else s
  }

  function TrimRight(s: string): string {
    if s != [] && IsSpace(s[|s| - 1]) then TrimRight(s[..|s| - 1]) else s
  }

  /** The first place of c from i on, or the length. */
  function Find(s: string, c: char, i: nat): (k: nat)
    requires i <= |s|
    ensures i <= k <= |s|
    ensures forall j | i <= j < k :: s[j] != c
    ensures k < |s| ==> s[k] == c
    decreases |s| - i
  {
    if i == |s| || s[i] == c then i else Find(s, c, i + 1)
  }

  lemma FindIs(s: string, c: char, i: nat, k: nat)
    requires i <= k <= |s| && (forall j | i <= j < k :: s[j] != c) && (k < |s| ==> s[k] == c)
    ensures Find(s, c, i) == k
  {}

  /** The lines of a text, empty ones left out. */
  function Lines(t: string): seq<string>
    decreases |t|
  {
    if t == [] then []
    else if t[0] == '\n' then Lines(t[1..])
    else
      var n := Find(t, '\n', 0);
      [t[..n]] + Lines(t[n..])
  }

  /** What one line says about a key. */
  datatype Meaning = Nothing | Malformed | Value(value: string)

  function LineMeaning(line: string, key: string): Meaning {
    var l := TrimLeft(line);
    if l == [] || l[0] == '#' then Nothing
    else
      var e := Find(l, '=', 0);
      if e == |l| then Malformed
      else if TrimRight(l[..e]) == key then Value(TrimRight(TrimLeft(l[e + 1..])))
      else Nothing
  }

  /** The first line that says something decides; a key without a line has the empty value. */
  function Lookup(lines: seq<string>, key: string): (r: Meaning)
    ensures r != Nothing
  {
    if lines == [] then Value("")
    else if LineMeaning(lines[0], key) != Nothing then LineMeaning(lines[0], key)
    else Lookup(lines[1..], key)
  }

  /** Line i says something about the key, and no line before it does. */
  ghost predicate Decides(lines: seq<string>, key: string, i: nat) {
    && i < |lines| && LineMeaning(lines[i], key) != Nothing
    && forall j | 0 <= j < i :: LineMeaning(lines[j], key) == Nothing
  }

  lemma {:induction false} LookupDecided(lines: seq<string>, key: string, i: nat)
    requires Decides(lines, key, i)
    ensures Lookup(lines, key) == LineMeaning(lines[i], key)
  {
    if i != 0 {
      assert lines[1..][i - 1] == lines[i];
      LookupDecided(lines[1..], key, i - 1);
    }
  }

  lemma {:induction false} LookupMissing(lines: seq<string>, key: string)
    requires forall j | 0 <= j < |lines| :: LineMeaning(lines[j], key) == Nothing
    ensures Lookup(lines, key) == Value("")
  {
    if lines != [] {
      LookupMissing(lines[1..], key);
    }
  }

  /** The first line that says something, if there is one. */
  lemma {:induction false} FindDecision(lines: seq<string>, key: string) returns (i: nat)
    requires exists j | 0 <= j < |lines| :: LineMeaning(lines[j], key) != Nothing
    ensures Decides(lines, key, i)
  {
    if LineMeaning(lines[0], key) != Nothing {
      i := 0;
    } else {
      var j :| 0 <= j < |lines| && LineMeaning(lines[j], key) != Nothing;
      assert lines[1..][j - 1] == lines[j];
      i := FindDecision(lines[1..], key);
      i := i + 1;
    }
  }

  // Facts about trimming.

  lemma {:induction false} TrimLeftIs(ws: string, s: string)
    requires AllSpace(ws) && (s == [] || !IsSpace(s[0]))
    ensures TrimLeft(ws + s) == s
  {
    if ws == [] {
      assert ws + s == s;
    } else {
      assert (ws + s)[1..] == ws[1..] + s;
      TrimLeftIs(ws[1..], s);
    }
  }

  lemma {:induction false} TrimRightIs(s: string, ws: string)
    requires AllSpace(ws) && (s == [] || !IsSpace(s[|s| - 1]))
    ensures TrimRight(s + ws) == s
  {
    if ws == [] {
      assert s + ws == s;
    } else {
      assert (s + ws)[..|s + ws| - 1] == s + ws[..|ws| - 1];
      TrimRightIs(s, ws[..|ws| - 1]);
    }
  }

  lemma {:induction false} TrimLeftSplit(s: string) returns (ws: string)
    ensures AllSpace(ws) && s == ws + TrimLeft(s) && (TrimLeft(s) == [] || !IsSpace(TrimLeft(s)[0]))
  {
    if s != [] && IsSpace(s[0]) {
      var rest := TrimLeftSplit(s[1..]);
      ws := [s[0]] + rest;
    } else {
      ws := [];
    }
  }

  lemma {:induction false} TrimRightSplit(s: string) returns (ws: string)
    ensures AllSpace(ws) && s == TrimRight(s) + ws && (TrimRight(s) == [] || !IsSpace(TrimRight(s)[|TrimRight(s)| - 1]))
  {
    if s != [] && IsSpace(s[|s| - 1]) {
      var rest := TrimRightSplit(s[..|s| - 1]);
      ws := rest + [s[|s| - 1]];
    } else {
      ws := [];
    }
  }

  // The meaning of a line in terms of its characters.

  lemma SpaceIs(c: char)
    ensures IsSpace(c) <==> c as int == 32 || 9 <= c as int <= 13
  {}

  /** Something other than a comment, and no '='. */
  ghost predicate Broken(line: string) {
    '=' !in line && exists i: nat :: FirstAt(line, i) && line[i] != '#'
  }

  /** The first character that is not white space. */
  ghost predicate FirstAt(line: string, i: nat) {
    i < |line| && !IsSpace(line[i]) && forall j | 0 <= j < i :: IsSpace(line[j])
  }

  predicate Trimmed(s: string) {
    s != [] ==> !IsSpace(s[0]) && !IsSpace(s[|s| - 1])
  }

  /** A key, '=' and a value, each with white space around it; the first '=' counts, and it is not a comment. */
  predicate Fields(k: string, v: string, w0: string, w1: string, w2: string, w3: string) {
    && AllSpace(w0) && AllSpace(w1) && AllSpace(w2) && AllSpace(w3)
    && Trimmed(k) && Trimmed(v) && '=' !in k && (k != [] ==> k[0] != '#')
  }

  ghost predicate Assigns(line: string, key: string, value: string) {
    exists w0, w1, w2, w3 ::
      Fields(key, value, w0, w1, w2, w3) && line == w0 + key + w1 + "=" + w2 + value + w3
  }

  lemma {:induction false} BrokenIs(line: string, key: string)
    ensures LineMeaning(line, key) == Malformed <==> Broken(line)
  {
    hide TrimLeft, TrimRight;
    var ws := TrimLeftSplit(line);
    var l := TrimLeft(line);
    if l != [] {
      assert forall j | 0 <= j < |ws| :: line[j] == ws[j];
      assert FirstAt(line, |ws|);
      FirstOnly(line, |ws|);
      EqualsIn(ws, l);
    } else {
      assert line == ws;
    }
  }

  lemma FirstOnly(line: string, i: nat)
    requires FirstAt(line, i)
    ensures forall j: nat | FirstAt(line, j) :: j == i
  {}

  lemma EqualsIn(ws: string, l: string)
    requires AllSpace(ws)
    ensures '=' in ws + l <==> Find(l, '=', 0) < |l|
  {
    var e := Find(l, '=', 0);
    if e < |l| {
      assert (ws + l)[|ws| + e] == '=';
    } else {
      assert forall i | 0 <= i < |ws + l| :: (ws + l)[i] == if i < |ws| then ws[i] else l[i - |ws|];
    }
  }

  /** The value of a line, whatever white space there is. */
  lemma {:induction false} AssignsIs(line: string, key: string, value: string)
    ensures LineMeaning(line, key) == Value(value) <==> Assigns(line, key, value)
  {
    hide LineMeaning;
    if LineMeaning(line, key) == Value(value) {
      var w0, w1, w2, w3 := Taken(line, key, value);
    } else if Assigns(line, key, value) {
      var w0, w1, w2, w3 :| Fields(key, value, w0, w1, w2, w3) && line == w0 + key + w1 + "=" + w2 + value + w3;
      PairMeaning(key, value, w0, w1, w2, w3, key);
    }
  }

  lemma {:induction false} Taken(line: string, key: string, value: string)
    returns (w0: string, w1: string, w2: string, w3: string)
    requires LineMeaning(line, key) == Value(value)
    ensures Fields(key, value, w0, w1, w2, w3) && line == w0 + key + w1 + "=" + w2 + value + w3
  {
    hide TrimLeft, TrimRight;
    w0 := TrimLeftSplit(line);
    var l := TrimLeft(line);
    var e := Find(l, '=', 0);
    w1 := TakenKey(l, e);
    w2, w3 := TakenValue(l[e + 1..]);
    hide IsSpace, AllSpace, Find;
    assert l == l[..e] + "=" + l[e + 1..];
    assert line == w0 + (key + w1 + "=" + (w2 + value + w3));
    Grouped(w0, key, w1, w2, value, w3);
  }

  lemma Grouped(w0: string, k: string, w1: string, w2: string, v: string, w3: string)
    ensures w0 + (k + w1 + "=" + (w2 + v + w3)) == w0 + k + w1 + "=" + w2 + v + w3
  {}

  lemma {:induction false} TakenKey(l: string, e: nat) returns (ws: string)
    requires e < |l| && !IsSpace(l[0]) && l[0] != '#' && forall i | 0 <= i < e :: l[i] != '='
    ensures var k := TrimRight(l[..e]);
            AllSpace(ws) && l[..e] == k + ws && Trimmed(k) && '=' !in k && (k != [] ==> k[0] != '#')
  {
    hide TrimRight;
    ws := TrimRightSplit(l[..e]);
    var k := TrimRight(l[..e]);
    assert forall i | 0 <= i < |k| :: k[i] == l[..e][i] == l[i];
  }

  lemma {:induction false} TakenValue(r: string) returns (w2: string, w3: string)
    ensures var v := TrimRight(TrimLeft(r));
            AllSpace(w2) && AllSpace(w3) && r == w2 + v + w3 && Trimmed(v)
  {
    hide TrimLeft, TrimRight;
    w2 := TrimLeftSplit(r);
    var t := TrimLeft(r);
    w3 := TrimRightSplit(t);
    var v := TrimRight(t);
    assert v != [] ==> v[0] == t[0];
    assert w2 + t == w2 + v + w3;
  }

  lemma {:induction false} PairMeaning(k: string, v: string, w0: string, w1: string, w2: string, w3: string,
                                       key: string)
    requires Fields(k, v, w0, w1, w2, w3)
    ensures LineMeaning(w0 + k + w1 + "=" + w2 + v + w3, key) == if k == key then Value(v) else Nothing
  {
    hide TrimLeft, TrimRight, Find;
    if k == [] {
      var l := "=" + (w2 + v + w3);
      assert w0 + k + w1 + "=" + w2 + v + w3 == (w0 + w1) + l;
      TrimLeftIs(w0 + w1, l);
      assert [] + "=" + (w2 + v + w3) == l;
      EqualsFound([], w2 + v + w3);
      assert k == k + [];
      TrimRightIs(k, []);
    } else {
      var l := k + w1 + "=" + (w2 + v + w3);
      assert w0 + k + w1 + "=" + w2 + v + w3 == w0 + l;
      TrimLeftIs(w0, l);
      EqualsFound(k + w1, w2 + v + w3);
      TrimRightIs(k, w1);
    }
    ValueBetween(w2, v, w3);
  }

  /** The first '=' cuts a line into what stands before it and what stands after it. */
  lemma {:induction false} EqualsFound(left: string, right: string)
    requires '=' !in left
    ensures var l := left + "=" + right;
            Find(l, '=', 0) == |left| && l[..|left|] == left && l[|left| + 1..] == right
  {
    hide Find;
    var l := left + "=" + right;
    assert forall j | 0 <= j < |left| :: l[j] == left[j];
    FindIs(l, '=', 0, |left|);
  }

  lemma {:induction false} ValueBetween(w2: string, v: string, w3: string)
    requires AllSpace(w2) && AllSpace(w3) && Trimmed(v)
    ensures TrimRight(TrimLeft(w2 + v + w3)) == v
  {
    hide TrimLeft, TrimRight;
    ValueTrailing(w2 + v, w3);
    TrimLeftIs(w2, v);
    assert v == v + [];
    TrimRightIs(v, []);
  }

  /** A line that says nothing about the key and does not stop the reader. */
  ghost predicate PassedOver(line: string, key: string) {
    !Broken(line) && forall v :: !Assigns(line, key, v)
  }

  lemma {:induction false} PassedOverIs(line: string, key: string)
    ensures LineMeaning(line, key) == Nothing <==> PassedOver(line, key)
  {
    hide LineMeaning, Broken, Assigns;
    BrokenIs(line, key);
    forall v ensures LineMeaning(line, key) == Value(v) <==> Assigns(line, key, v) {
      AssignsIs(line, key, v);
    }
    if LineMeaning(line, key).Value? {
      assert Assigns(line, key, LineMeaning(line, key).value);
    }
  }

  /** A line without '=' comes before any line with the key. */
  ghost predicate Stops(lines: seq<string>, key: string) {
    exists i: nat :: i < |lines| && Broken(lines[i]) && forall j | 0 <= j < i :: PassedOver(lines[j], key)
  }

  /** The first line with the key has the value, or no line has the key and the value is empty. */
  ghost predicate Gives(lines: seq<string>, key: string, v: string) {
    || (exists i: nat :: i < |lines| && Assigns(lines[i], key, v) && forall j | 0 <= j < i :: PassedOver(lines[j], key))
    || (v == "" && forall j | 0 <= j < |lines| :: PassedOver(lines[j], key))
  }

  /** The reader aborts exactly when it is stopped. */
  lemma {:induction false} MalformedIs(lines: seq<string>, key: string)
    ensures Lookup(lines, key) == Malformed <==> Stops(lines, key)
  {
    hide LineMeaning, Lookup, Broken, PassedOver;
    forall j | 0 <= j < |lines|
      ensures LineMeaning(lines[j], key) == Malformed <==> Broken(lines[j])
      ensures LineMeaning(lines[j], key) == Nothing <==> PassedOver(lines[j], key)
    {
      BrokenIs(lines[j], key);
      PassedOverIs(lines[j], key);
    }
    LookupIs(lines, key);
  }

  /** It returns a value exactly when the lines give it. */
  lemma {:induction false} ValueIs(lines: seq<string>, key: string, v: string)
    ensures Lookup(lines, key) == Value(v) <==> Gives(lines, key, v)
  {
    hide LineMeaning, Lookup, Assigns, PassedOver;
    forall j | 0 <= j < |lines|
      ensures LineMeaning(lines[j], key) == Value(v) <==> Assigns(lines[j], key, v)
      ensures LineMeaning(lines[j], key) == Nothing <==> PassedOver(lines[j], key)
    {
      AssignsIs(lines[j], key, v);
      PassedOverIs(lines[j], key);
    }
    LookupIs(lines, key);
  }

  /** A lookup gives what the deciding line says. */
  lemma {:induction false} LookupIs(lines: seq<string>, key: string)
    ensures forall i: nat | Decides(lines, key, i) :: Lookup(lines, key) == LineMeaning(lines[i], key)
    ensures (exists i: nat :: Decides(lines, key, i)) ||
            (Lookup(lines, key) == Value("") && forall j | 0 <= j < |lines| :: LineMeaning(lines[j], key) == Nothing)
  {
    hide LineMeaning, Lookup;
    if exists j | 0 <= j < |lines| :: LineMeaning(lines[j], key) != Nothing {
      var i := FindDecision(lines, key);
    } else {
      LookupMissing(lines, key);
    }
    forall i: nat | Decides(lines, key, i) ensures Lookup(lines, key) == LineMeaning(lines[i], key) {
      LookupDecided(lines, key, i);
    }
  }

  // What does not change the result.

  /** White space before a line means nothing. */
  lemma {:induction false} LeadingSpace(ws: string, line: string, key: string)
    requires AllSpace(ws)
    ensures LineMeaning(ws + line, key) == LineMeaning(line, key)
  {
    hide TrimLeft, LineMeaning;
    var inner := TrimLeftSplit(line);
    assert ws + line == (ws + inner) + TrimLeft(line);
    TrimLeftIs(ws + inner, TrimLeft(line));
    SameTrimmed(ws + line, line, key);
  }

  lemma SameTrimmed(a: string, b: string, key: string)
    requires TrimLeft(a) == TrimLeft(b)
    ensures LineMeaning(a, key) == LineMeaning(b, key)
  {
    hide TrimLeft, TrimRight, Find;
  }

  /** White space after a line means nothing. */
  lemma {:induction false} TrailingSpace(line: string, ws: string, key: string)
    requires AllSpace(ws)
    ensures LineMeaning(line + ws, key) == LineMeaning(line, key)
  {
    var before := TrimLeftSplit(line);
    var l := TrimLeft(line);
    if l == [] {
      assert line + ws == before + ws + [];
      TrimLeftIs(before + ws, []);
    } else {
      assert line + ws == before + (l + ws);
      TrimLeftIs(before, l + ws);
      TrailingTrimmed(l, ws, key);
    }
  }

  lemma {:induction false} TrailingTrimmed(l: string, ws: string, key: string)
    requires AllSpace(ws) && l != [] && !IsSpace(l[0])
    ensures LineMeaning(l + ws, key) == LineMeaning(l, key)
  {
    assert TrimLeft(l + ws) == l + ws && TrimLeft(l) == l;
    if l[0] != '#' {
      var e := Find(l, '=', 0);
      if e == |l| {
        assert forall j | 0 <= j < |ws| :: (l + ws)[|l| + j] == ws[j];
        FindIs(l + ws, '=', 0, |l + ws|);
      } else {
        FindIs(l + ws, '=', 0, e);
        assert (l + ws)[..e] == l[..e];
        assert (l + ws)[e + 1..] == l[e + 1..] + ws;
        ValueTrailing(l[e + 1..], ws);
      }
    }
  }

  lemma {:induction false} ValueTrailing(v: string, ws: string)
    requires AllSpace(ws)
    ensures TrimRight(TrimLeft(v + ws)) == TrimRight(TrimLeft(v))
  {
    var before := TrimLeftSplit(v);
    var t := TrimLeft(v);
    if t == [] {
      assert v + ws == before + ws + [];
      TrimLeftIs(before + ws, []);
    } else {
      assert v + ws == before + (t + ws);
      TrimLeftIs(before, t + ws);
      var after := TrimRightSplit(t);
      assert t + ws == TrimRight(t) + (after + ws);
      TrimRightIs(TrimRight(t), after + ws);
    }
  }

  /** A comment or blank line can stand anywhere. */
  lemma {:induction false} LineDropped(before: seq<string>, line: string, after: seq<string>, key: string)
    requires LineMeaning(line, key) == Nothing
    ensures Lookup(before + [line] + after, key) == Lookup(before + after, key)
  {
    if before == [] {
      assert before + [line] + after == [line] + after && before + after == after;
      assert ([line] + after)[1..] == after;
    } else {
      assert (before + [line] + after)[1..] == before[1..] + [line] + after;
      assert (before + after)[1..] == before[1..] + after;
      LineDropped(before[1..], line, after, key);
    }
  }

  lemma {:induction false} BlankOrComment(ws: string, comment: string, key: string)
    requires AllSpace(ws)
    ensures LineMeaning(ws, key) == Nothing && LineMeaning(ws + "#" + comment, key) == Nothing
  {
    assert ws == ws + [];
    TrimLeftIs(ws, []);
    assert ws + "#" + comment == ws + ("#" + comment);
    TrimLeftIs(ws, "#" + comment);
  }

  /** A text is cut at its newlines. */
  lemma {:induction false} LinesCut(line: string, rest: string)
    requires '\n' !in line
    ensures Lines(line + "\n" + rest) == (if line == [] then [] else [line]) + Lines(rest)
  {
    var t := line + "\n" + rest;
    if line == [] {
      assert t[1..] == rest;
    } else {
      FindIs(t, '\n', 0, |line|);
      assert t[..|line|] == line;
      assert t[|line|..] == "\n" + rest;
      assert ("\n" + rest)[1..] == rest;
    }
  }

  /** What is left without a newline is a line, if it is not empty. */
  lemma LastLine(line: string)
    requires '\n' !in line
    ensures Lines(line) == if line == [] then [] else [line]
  {
    if line != [] {
      FindIs(line, '\n', 0, |line|);
      assert line[..|line|] == line && line[|line|..] == [];
      assert Lines([]) == [];
    }
  }

  // A file written out and looked up again.

  /** A pair with white space around its fields, or a line that is a comment or blank. */
  datatype Item = Pair(key: string, value: string, w0: string, w1: string, w2: string, w3: string)
                | Remark(space: string, comment: string)

  /** Fields that can be written without being misread: no newline, no white space at the ends, no early '='. */
  predicate Writable(item: Item) {
    match item
    case Pair(k, v, w0, w1, w2, w3) =>
      && Fields(k, v, w0, w1, w2, w3)
      && '\n' !in k && '\n' !in v && '\n' !in w0 && '\n' !in w1 && '\n' !in w2 && '\n' !in w3
    case Remark(space, comment) =>
      AllSpace(space) && '\n' !in space && '\n' !in comment && (comment != [] ==> comment[0] == '#')
  }

  function RenderLine(item: Item): string {
    match item
    case Pair(k, v, w0, w1, w2, w3) => w0 + k + w1 + "=" + w2 + v + w3
    case Remark(space, comment) => space + comment
  }

  function Render(items: seq<Item>): string {
    if items == [] then "" else RenderLine(items[0]) + "\n" + Render(items[1..])
  }

  /** The value of the first pair with the key. */
  function FirstValue(items: seq<Item>, key: string): string {
    if items == [] then ""
    else if items[0].Pair? && items[0].key == key then items[0].value
    else FirstValue(items[1..], key)
  }

  lemma {:induction false} RemarkMeaning(item: Item, key: string)
    requires item.Remark? && Writable(item)
    ensures LineMeaning(RenderLine(item), key) == Nothing
  {
    if item.comment == [] {
      assert item.space + item.comment == item.space;
      BlankOrComment(item.space, "", key);
    } else {
      assert item.space + item.comment == item.space + "#" + item.comment[1..];
      BlankOrComment(item.space, item.comment[1..], key);
    }
  }

  /** What was written is read back: the first value of the key, whatever stands around it. */
  lemma {:induction false} RoundTrip(items: seq<Item>, key: string)
    requires forall i | 0 <= i < |items| :: Writable(items[i])
    ensures Lookup(Lines(Render(items)), key) == Value(FirstValue(items, key))
  {
    if items != [] {
      var item, rest := items[0], Render(items[1..]);
      RoundTrip(items[1..], key);
      var line := RenderLine(item);
      assert '\n' !in line;
      LinesCut(line, rest);
      match item {
        case Pair(k, v, w0, w1, w2, w3) => PairMeaning(k, v, w0, w1, w2, w3, key);
        case Remark(space, comment) => RemarkMeaning(item, key);
      }
      if line == [] {
        assert [] + Lines(rest) == Lines(rest);
      } else {
        assert ([line] + Lines(rest))[1..] == Lines(rest);
      }
    }
  }
}
