/**
 The key=value codec of src/libxml.c: a printer that writes one line per node, and a parser
 built on a tokenizer that cuts its buffer in place. A C string is a sequence of characters
 other than NUL.
 */
module Codec {
  import opened Options

  const NUL := '\0'
  const KEY_SIZE := 50     // XML_LENGTH_KEY
  const VALUE_SIZE := 255  // XML_LENGTH_VALUE
  const LINE_SIZE := 2048  // XML_LENGTH
  const MAX_LINES := 50

  datatype Node = Node(key: string, value: string)

  // ---------- strings ----------

  /** strncpy into a buffer that keeps room for n characters. */
  function Clip(s: string, n: nat): string { if |s| <= n then s else s[..n] }

  /** The characters before the first one in the set (strcspn, strpbrk). */
  function Until(s: string, stop: set<char>): (r: string)
    ensures |r| <= |s|
  {
    if s == [] || s[0] in stop then [] else [s[0]] + Until(s[1..], stop)
  }

  /** The string without its leading characters from the set (strspn). */
  function SkipAll(s: string, skip: set<char>): (r: string)
    ensures |r| <= |s|
  {
    if s == [] || s[0] !in skip then s else SkipAll(s[1..], skip)
  }

  lemma {:induction false} UntilIs(a: string, b: string, stop: set<char>)
    requires (forall c | c in a :: c !in stop) && (b != [] ==> b[0] in stop)
    ensures Until(a + b, stop) == a
  {
    if a == [] {
      assert a + b == b;
    } else {
      assert a[0] in a && (a + b)[1..] == a[1..] + b;
      UntilIs(a[1..], b, stop);
    }
  }

  // ---------- lines ----------

  /** What is left after a token: the delimiter behind it is cut away. */
  function Rest(s: string, token: string): string
    requires |token| <= |s|
  {
    if |token| < |s| then s[|token| + 1..] else []
  }

  /** The tokens that repeated calls of m_strtok_r return. */
  function Tokens(s: string, delim: set<char>): seq<string>
    decreases |s|
  {
    var t := SkipAll(s, delim);
    if t == [] then []
    else
      var token := Until(t, delim);
      [token] + Tokens(Rest(t, token), delim)
  }

  const NEWLINE: set<char> := {'\n'}

  /** The loop body of xpath_init: a line without '=' is ignored. */
  function ParseLine(line: string): Option<Node> {
    var tmp := Clip(line, LINE_SIZE - 1);
    var key := Until(tmp, {'='});
    if |key| == |tmp| then None
    else Some(Node(Clip(key, KEY_SIZE - 1), Clip(tmp[|key| + 1..], VALUE_SIZE - 1)))
  }

  function ParseLines(lines: seq<string>): seq<Node> {
    if lines == [] then [] else Parsed(lines[0]) + ParseLines(lines[1..])
  }

  function Parsed(line: string): seq<Node> {
    match ParseLine(line)
    case None => []
    case Some(node) => [node]
  }

  function FirstLines(lines: seq<string>): seq<string> {
    if |lines| <= MAX_LINES then lines else lines[..MAX_LINES]
  }

  /** xpath_init. */
  function Parse(text: string): seq<Node> { ParseLines(FirstLines(Tokens(text, NEWLINE))) }

  /** traverse: one printed node. */
  function Line(n: Node): string { n.key + "=" + n.value }

  /** tree_getxml. */
  function Print(nodes: seq<Node>): string {
    if nodes == [] then [] else Line(nodes[0]) + "\n" + Print(nodes[1..])
  }

  /** A node whose strings leave room for their terminators in the fixed-size buffers. */
  predicate Fits(n: Node) { |n.key| <= 48 && |n.value| <= 253 }

  /** A node whose strings do not disturb the line format. */
  predicate Clean(n: Node) {
    (forall c | c in n.key :: c != '=' && c != '\n') && (forall c | c in n.value :: c != '\n')
  }

  predicate Printable(n: Node) { Fits(n) && Clean(n) }

  ghost predicate AllPrintable(nodes: seq<Node>) {
    forall i | 0 <= i < |nodes| :: Printable(nodes[i])
  }

  function LinesOf(nodes: seq<Node>): seq<string> {
    seq(|nodes|, i requires 0 <= i < |nodes| => Line(nodes[i]))
  }

  lemma LineParses(n: Node)
    requires Printable(n)
    ensures ParseLine(Line(n)) == Some(n)
  {
    UntilIs(n.key, "=" + n.value, {'='});
    assert n.key + ("=" + n.value) == Line(n);
  }

  lemma LineIsToken(n: Node, rest: string)
    requires Printable(n)
    ensures var s := Line(n) + "\n" + rest;
            SkipAll(s, NEWLINE) == s && Until(s, NEWLINE) == Line(n) && Rest(s, Line(n)) == rest
  {
    var s := Line(n) + "\n" + rest;
    assert s == Line(n) + ("\n" + rest);
    forall c | c in Line(n) ensures c != '\n' {
      assert c in n.key || c == '=' || c in n.value;
    }
    UntilIs(Line(n), "\n" + rest, NEWLINE);
    assert Line(n)[0] in Line(n);
  }

  lemma TokensStep(n: Node, rest: string)
    requires Printable(n)
    ensures Tokens(Line(n) + "\n" + rest, NEWLINE) == [Line(n)] + Tokens(rest, NEWLINE)
  {
    LineIsToken(n, rest);
  }

  lemma LinesSplit(nodes: seq<Node>)
    requires nodes != []
    ensures LinesOf(nodes) == [Line(nodes[0])] + LinesOf(nodes[1..])
  {}

  lemma {:induction false} PrintTokens(nodes: seq<Node>)
    requires AllPrintable(nodes)
    ensures Tokens(Print(nodes), NEWLINE) == LinesOf(nodes)
  {
    if nodes != [] {
      PrintTokens(nodes[1..]);
      TokensStep(nodes[0], Print(nodes[1..]));
      LinesSplit(nodes);
    }
  }

  lemma {:induction false} ParseLinesSplit(a: seq<string>, b: seq<string>)
    ensures ParseLines(a + b) == ParseLines(a) + ParseLines(b)
  {
    if a == [] {
      assert a + b == b;
    } else {
      assert (a + b)[0] == a[0] && (a + b)[1..] == a[1..] + b;
      ParseLinesSplit(a[1..], b);
    }
  }

  lemma ParseOne(line: string)
    ensures ParseLines([line]) == Parsed(line)
  {
    assert [line][1..] == [];
  }

  lemma {:induction false} LinesParse(nodes: seq<Node>)
    requires AllPrintable(nodes)
    ensures ParseLines(LinesOf(nodes)) == nodes
  {
    if nodes != [] {
      LinesParse(nodes[1..]);
      LineParses(nodes[0]);
      assert LinesOf(nodes)[1..] == LinesOf(nodes[1..]);
    }
  }

  function FirstNodes(nodes: seq<Node>): seq<Node> {
    if |nodes| <= MAX_LINES then nodes else nodes[..MAX_LINES]
  }

  lemma FirstLinesOf(nodes: seq<Node>)
    ensures FirstLines(LinesOf(nodes)) == LinesOf(FirstNodes(nodes))
    ensures AllPrintable(nodes) ==> AllPrintable(FirstNodes(nodes))
  {}

  /** Round trip: parsing what was printed gives back the first 50 nodes, in order. */
  lemma RoundTrip(nodes: seq<Node>)
    requires AllPrintable(nodes)
    ensures Parse(Print(nodes)) == FirstNodes(nodes)
  {
    PrintTokens(nodes);
    FirstLinesOf(nodes);
    LinesParse(FirstNodes(nodes));
  }

  // ---------- what a parse can return ----------

  lemma {:induction false} UntilFree(s: string, stop: set<char>, c: char)
    requires c in Until(s, stop)
    ensures c !in stop && c in s
  {
    if c != s[0] { UntilFree(s[1..], stop, c); }
  }

  lemma {:induction false} TokensFree(s: string, delim: set<char>, i: nat, c: char)
    requires i < |Tokens(s, delim)| && c in Tokens(s, delim)[i]
    ensures c !in delim
    decreases |s|
  {
    var t := SkipAll(s, delim);
    var token := Until(t, delim);
    if i == 0 { UntilFree(t, delim, c); } else { TokensFree(Rest(t, token), delim, i - 1, c); }
  }

  lemma ParseLineClean(line: string)
    requires '\n' !in line && ParseLine(line).Some?
    ensures Clean(ParseLine(line).value)
  {
    var tmp := Clip(line, LINE_SIZE - 1);
    var key := Until(tmp, {'='});
    var n := ParseLine(line).value;
    forall c | c in n.key ensures c != '=' && c != '\n' {
      assert c in key;
      UntilFree(tmp, {'='}, c);
      assert c in line;
    }
    forall c | c in n.value ensures c in line {
      assert c in tmp;
    }
  }

  lemma {:induction false} ParseLinesClean(lines: seq<string>)
    requires forall i | 0 <= i < |lines| :: '\n' !in lines[i]
    ensures |ParseLines(lines)| <= |lines|
    ensures forall n | n in ParseLines(lines) :: Clean(n)
  {
    if lines != [] {
      ParseLinesClean(lines[1..]);
      if ParseLine(lines[0]).Some? { ParseLineClean(lines[0]); }
    }
  }

  /** A parse yields at most 50 nodes, and none with a '=' in its key or a newline. */
  lemma ParseIsClean(text: string)
    ensures |Parse(text)| <= 50 && forall n | n in Parse(text) :: Clean(n)
  {
    var lines := Tokens(text, NEWLINE);
    forall i | 0 <= i < |lines| ensures '\n' !in lines[i] {
      if '\n' in lines[i] { TokensFree(text, NEWLINE, i, '\n'); }
    }
    ParseLinesClean(FirstLines(lines));
  }

  /** For nodes that fit the buffers the round trip is complete exactly when there are at most
      50 of them and they are clean. */
  lemma RoundTripIff(nodes: seq<Node>)
    requires forall i | 0 <= i < |nodes| :: Fits(nodes[i])
    ensures Parse(Print(nodes)) == nodes <==> |nodes| <= 50 && forall n | n in nodes :: Clean(n)
  {
    ParseIsClean(Print(nodes));
    if |nodes| <= MAX_LINES && forall n | n in nodes :: Clean(n) {
      RoundTrip(nodes);
    }
  }

  // ---------- lookup ----------

  /** strncmp over the first n characters. */
  predicate SameStart(a: string, b: string, n: nat) { Clip(a, n) == Clip(b, n) }

  /** xpath_get_param with a result buffer of the given size. */
  function GetParam(nodes: seq<Node>, key: string, size: nat): Option<string>
    requires size > 0
  {
    if nodes == [] then None
    else if SameStart(nodes[0].key, Clip(key, KEY_SIZE - 1), KEY_SIZE - 1) then Some(Clip(nodes[0].value, size - 1))
    else GetParam(nodes[1..], key, size)
  }

  /** The value that was stored first under a key. */
  function FirstValue(nodes: seq<Node>, key: string): (r: Option<string>)
    ensures r.None? ==> forall n | n in nodes :: n.key != key
    ensures r.Some? ==> exists i | 0 <= i < |nodes| ::
              nodes[i] == Node(key, r.value) && forall j | 0 <= j < i :: nodes[j].key != key
  {
    if nodes == [] then None
    else if nodes[0].key == key then Some(nodes[0].value)
    else
      var rest := FirstValue(nodes[1..], key);
      assert rest.Some? ==> exists i | 0 <= i < |nodes| ::
        nodes[i] == Node(key, rest.value) && forall j | 0 <= j < i :: nodes[j].key != key by {
        if rest.Some? {
          var i :| 0 <= i < |nodes[1..]| && nodes[1..][i] == Node(key, rest.value) && forall j | 0 <= j < i :: nodes[1..][j].key != key;
          assert nodes[i + 1] == Node(key, rest.value);
          assert forall j | 0 < j < i + 1 :: nodes[j] == nodes[1..][j - 1];
        }
      }
      rest
  }

  /** The lookup gives the first value stored under the key, cut to the size of the buffer. */
  lemma {:induction false} GetParamIsFirst(nodes: seq<Node>, key: string, size: nat)
    requires AllPrintable(nodes) && |key| <= 48 && size > 0
    ensures var v := FirstValue(nodes, key);
            GetParam(nodes, key, size) ==
            if v.None? then None else Some(if |v.value| < size then v.value else v.value[..size - 1])
  {
    if nodes != [] {
      GetParamIsFirst(nodes[1..], key, size);
    }
  }

  /** Looking a key up in a parsed message gives the first value printed under it. */
  lemma LookupAfterRoundTrip(nodes: seq<Node>, key: string, size: nat)
    requires AllPrintable(nodes) && |key| <= 48 && size >= 254
    ensures GetParam(Parse(Print(nodes)), key, size) == FirstValue(FirstNodes(nodes), key)
  {
    RoundTrip(nodes);
    FirstLinesOf(nodes);
    GetParamIsFirst(FirstNodes(nodes), key, size);
    FirstValueFits(FirstNodes(nodes), key);
  }

  lemma FirstValueFits(nodes: seq<Node>, key: string)
    requires AllPrintable(nodes)
    ensures FirstValue(nodes, key).Some? ==> |FirstValue(nodes, key).value| <= 253
  {}

  /** xpath_get_param, which searches the list for a node with the same start of its key. */
  method XpathGetParam(nodes: seq<Node>, key: string, size: nat) returns (value: Option<string>)
    requires size > 0
    ensures value == GetParam(nodes, key, size)
  {
    var wanted := Clip(key, KEY_SIZE - 1);
    for i := 0 to |nodes|
      invariant GetParam(nodes, key, size) == GetParam(nodes[i..], key, size)
    {
      assert nodes[i..][1..] == nodes[i + 1..];
      if SameStart(nodes[i].key, wanted, KEY_SIZE - 1) {
        return Some(Clip(nodes[i].value, size - 1));
      }
    }
    value := None;
  }

  // ---------- any text ----------

  lemma {:induction false} SkipSplit(a: string, d: char, b: string, delim: set<char>)
    requires d in delim
    ensures SkipAll(a + [d] + b, delim) ==
            if SkipAll(a, delim) == [] then SkipAll(b, delim) else SkipAll(a, delim) + [d] + b
  {
    if a == [] {
      assert a + [d] + b == [d] + b;
    } else {
      assert (a + [d] + b)[1..] == a[1..] + [d] + b;
      if a[0] in delim { SkipSplit(a[1..], d, b, delim); }
    }
  }

  lemma {:induction false} UntilSplit(a: string, d: char, b: string, delim: set<char>)
    requires d in delim
    ensures Until(a + [d] + b, delim) == Until(a, delim)
  {
    if a == [] {
      assert a + [d] + b == [d] + b;
    } else {
      assert (a + [d] + b)[1..] == a[1..] + [d] + b;
      UntilSplit(a[1..], d, b, delim);
    }
  }

  lemma FirstOff(a: string, d: char, b: string, delim: set<char>, t: string, token: string)
    requires d in delim && t == SkipAll(a, delim) && t != [] && token == Until(t, delim)
    ensures Tokens(a + [d] + b, delim) ==
            [token] + Tokens(if |token| < |t| then Rest(t, token) + [d] + b else b, delim)
  {
    SkipSplit(a, d, b, delim);
    UntilSplit(t, d, b, delim);
    TokensUnfold(a + [d] + b, delim, t + [d] + b, token);
    RestSplit(t, token, d, b);
  }

  lemma NoneOff(a: string, d: char, b: string, delim: set<char>)
    requires d in delim && SkipAll(a, delim) == []
    ensures Tokens(a, delim) == [] && Tokens(a + [d] + b, delim) == Tokens(b, delim)
  {
    SkipSplit(a, d, b, delim);
  }

  lemma ConsAssoc<T>(x: T, a: seq<T>, b: seq<T>)
    ensures [x] + (a + b) == ([x] + a) + b
  {}

  /** A delimiter separates: the tokens before it are followed by those behind it. */
  lemma {:induction false} TokensSplit(a: string, d: char, b: string, delim: set<char>)
    requires d in delim
    ensures Tokens(a + [d] + b, delim) == Tokens(a, delim) + Tokens(b, delim)
    decreases |a|
  {
    var t := SkipAll(a, delim);
    if t == [] {
      NoneOff(a, d, b, delim);
    } else {
      var token := Until(t, delim);
      var rest := Rest(t, token);
      FirstOff(a, d, b, delim, t, token);
      TokensUnfold(a, delim, t, token);
      ConsAssoc(token, Tokens(rest, delim), Tokens(b, delim));
      if |token| < |t| {
        TokensSplit(rest, d, b, delim);
      }
    }
  }

  lemma RestSplit(t: string, token: string, d: char, b: string)
    requires |token| <= |t|
    ensures Rest(t + [d] + b, token) == if |token| < |t| then Rest(t, token) + [d] + b else b
  {}

  /** A string without delimiters is one token, and the empty string none. */
  lemma WholeToken(a: string, delim: set<char>)
    requires forall c | c in a :: c !in delim
    ensures Tokens(a, delim) == if a == [] then [] else [a]
  {
    if a != [] {
      UntilIs(a, [], delim);
      assert a + [] == a;
      TokensUnfold(a, delim, a, a);
    }
  }

  /** What one line yields: nothing without a '=', and else the text before the first '=' under
      which the text behind it is stored, both cut to their buffers. */
  lemma LineMeaning(key: string, value: string)
    requires '=' !in key && |key| + |value| < 2047
    ensures ParseLine(key) == None
    ensures ParseLine(key + "=" + value) ==
            Some(Node(if |key| <= 49 then key else key[..49], if |value| <= 254 then value else value[..254]))
  {
    UntilIs(key, "=" + value, {'='});
    UntilIs(key, [], {'='});
    assert key + [] == key && key + ("=" + value) == key + "=" + value;
  }

  /** A line without '=' inside a text of at most 50 lines adds nothing and disturbs nothing. */
  lemma LineIgnored(a: string, line: string, b: string)
    requires '=' !in line && '\n' !in line && |line| < 2047
    requires |Tokens(a, NEWLINE)| + |Tokens(b, NEWLINE)| < 50
    ensures Parse(a + "\n" + (line + "\n" + b)) == Parse(a + "\n" + b)
  {
    var ta, tb := Tokens(a, NEWLINE), Tokens(b, NEWLINE);
    LineTokens(a, line, b);
    LineMeaning(line, []);
    ParseOne(line);
    DropLines(ta, [line], tb);
    ParseShort(a + "\n" + b, ta + tb);
    if line == [] {
      ParseShort(a + "\n" + (line + "\n" + b), ta + tb);
    } else {
      ParseShort(a + "\n" + (line + "\n" + b), ta + ([line] + tb));
    }
  }

  lemma ParseShort(text: string, lines: seq<string>)
    requires Tokens(text, NEWLINE) == lines && |lines| <= 50
    ensures Parse(text) == ParseLines(lines)
  {}

  lemma DropLines(ta: seq<string>, dropped: seq<string>, tb: seq<string>)
    requires ParseLines(dropped) == []
    ensures ParseLines(ta + (dropped + tb)) == ParseLines(ta + tb)
  {
    ParseLinesSplit(ta, tb);
    ParseLinesSplit(ta, dropped + tb);
    ParseLinesSplit(dropped, tb);
  }

  lemma LineTokens(a: string, line: string, b: string)
    requires '\n' !in line
    ensures Tokens(a + "\n" + b, NEWLINE) == Tokens(a, NEWLINE) + Tokens(b, NEWLINE)
    ensures Tokens(a + "\n" + (line + "\n" + b), NEWLINE) ==
            if line == [] then Tokens(a, NEWLINE) + Tokens(b, NEWLINE)
            else Tokens(a, NEWLINE) + ([line] + Tokens(b, NEWLINE))
  {
    WholeToken(line, NEWLINE);
    AtNewline(a, b);
    AtNewline(line, b);
    AtNewline(a, line + "\n" + b);
  }

  lemma AtNewline(a: string, b: string)
    ensures Tokens(a + "\n" + b, NEWLINE) == Tokens(a, NEWLINE) + Tokens(b, NEWLINE)
  {
    TokensSplit(a, '\n', b, NEWLINE);
  }

  // ---------- the buffer, cut in place ----------

  /** The C string at a position of a buffer ends at the given index. */
  ghost predicate CString(buf: array<char>, start: nat, end: nat)
    reads buf
  {
    start <= end < buf.Length && buf[end] == NUL && forall i | start <= i < end :: buf[i] != NUL
  }

  lemma SkipStep(buf: array<char>, i: nat, end: nat, skip: set<char>)
    requires i < end <= buf.Length && buf[i] in skip
    ensures SkipAll(buf[i..end], skip) == SkipAll(buf[i + 1..end], skip)
  {
    assert buf[i..end][1..] == buf[i + 1..end];
  }

  lemma UntilStep(buf: array<char>, i: nat, j: nat, end: nat, stop: set<char>)
    requires i <= j <= end <= buf.Length && forall k | i <= k < j :: buf[k] !in stop
    requires j < end ==> buf[j] in stop
    ensures Until(buf[i..end], stop) == buf[i..j]
  {
    assert buf[i..end] == buf[i..j] + buf[j..end];
    UntilIs(buf[i..j], buf[j..end], stop);
  }

  /** strspn: the first position behind leading delimiters. */
  method SkipDelimiters(buf: array<char>, s: nat, delim: set<char>, ghost end: nat) returns (i: nat)
    requires CString(buf, s, end) && NUL !in delim
    ensures s <= i <= end && buf[i] !in delim && buf[i..end] == SkipAll(buf[s..end], delim)
  {
    i := s;
    while buf[i] in delim
      invariant s <= i <= end
      invariant SkipAll(buf[i..end], delim) == SkipAll(buf[s..end], delim)
      decreases end - i
    {
      SkipStep(buf, i, end, delim);
      i := i + 1;
    }
  }

  /** strpbrk: the next delimiter, or the end of the string. */
  method FindDelimiter(buf: array<char>, i: nat, delim: set<char>, ghost end: nat) returns (j: nat)
    requires CString(buf, i, end)
    ensures i <= j <= end && Until(buf[i..end], delim) == buf[i..j] && (j < end ==> buf[j] in delim)
  {
    j := i;
    while buf[j] != NUL && buf[j] !in delim
      invariant i <= j <= end
      invariant forall k | i <= k < j :: buf[k] !in delim
      decreases end - j
    {
      j := j + 1;
    }
    UntilStep(buf, i, j, end, delim);
  }

  lemma TokensUnfold(s: string, delim: set<char>, t: string, token: string)
    requires t == SkipAll(s, delim) && t != [] && token == Until(t, delim)
    ensures Tokens(s, delim) == [token] + Tokens(Rest(t, token), delim)
  {}

  /** m_strtok_r: it skips delimiters, ends the token with a NUL and returns where to go on.
      It takes the first token off the string. */
  method Strtok(buf: array<char>, s: nat, delim: set<char>, ghost end: nat)
    returns (token: Option<nat>, save: nat, ghost text: string)
    requires CString(buf, s, end) && NUL !in delim
    modifies buf
    ensures s <= save <= end && CString(buf, save, end)
    ensures token == None ==> Tokens(old(buf[s..end]), delim) == []
    ensures token.Some? ==>
              && save > s
              && CString(buf, token.value, token.value + |text|)
              && buf[token.value..token.value + |text|] == text
              && Tokens(old(buf[s..end]), delim) == [text] + Tokens(buf[save..end], delim)
  {
    text := [];
    var i := SkipDelimiters(buf, s, delim, end);
    if buf[i] == NUL {
      return None, i, text;
    }
    var j := FindDelimiter(buf, i, delim, end);
    ghost var t := buf[i..end];
    text := buf[i..j];
    TokensUnfold(buf[s..end], delim, t, text);
    token, save := Some(i), j;
    if buf[j] != NUL {
      buf[j] := NUL;
      save := j + 1;
    }
    assert buf[save..end] == Rest(t, text);
  }

  /** strdup of the C string at a position. */
  method Strdup(buf: array<char>, start: nat, ghost end: nat) returns (r: string)
    requires CString(buf, start, end)
    ensures r == buf[start..end]
  {
    var i := start;
    r := [];
    while buf[i] != NUL
      invariant start <= i <= end && r == buf[start..i]
      decreases end - i
    {
      r := r + [buf[i]];
      i := i + 1;
    }
  }

  /** parse_arg: the first maxTok + 1 tokens of the buffer. */
  method ParseArg(buf: array<char>, maxTok: nat, delim: set<char>, ghost end: nat) returns (argv: seq<string>)
    requires CString(buf, 0, end) && NUL !in delim
    modifies buf
    ensures var all := Tokens(old(buf[0..end]), delim);
            argv == if |all| <= maxTok + 1 then all else all[..maxTok + 1]
  {
    argv := [];
    if buf[0] == NUL {
      return;
    }
    ghost var all := Tokens(buf[0..end], delim);
    var save := 0;
    while true
      invariant CString(buf, save, end)
      invariant argv + Tokens(buf[save..end], delim) == all && |argv| <= maxTok + 1
      decreases end - save
    {
      var token;
      ghost var text;
      token, save, text := Strtok(buf, save, delim, end);
      if token == None {
        break;
      }
      if |argv| > maxTok {
        break;
      }
      var arg := Strdup(buf, token.value, token.value + |text|);
      argv := argv + [arg];
    }
  }

  /** xpath_init: parses a copy of the text. */
  method XpathInit(text: string) returns (nodes: seq<Node>)
    requires forall c | c in text :: c != NUL
    ensures nodes == Parse(text)
  {
    var buf := new char[|text| + 1](i requires 0 <= i <= |text| => if i < |text| then text[i] else NUL);
    assert buf[0..|text|] == text;
    assert forall i | 0 <= i < |text| :: buf[i] == text[i] && text[i] in text;
    var argv := ParseArg(buf, MAX_LINES - 1, NEWLINE, |text|);
    nodes := CollectNodes(argv);
  }

  /** The loop of xpath_init over the lines. */
  method CollectNodes(argv: seq<string>) returns (nodes: seq<Node>)
    ensures nodes == ParseLines(argv)
  {
    nodes := [];
    for i := 0 to |argv|
      invariant nodes == ParseLines(argv[..i])
    {
      ParseLinesSplit(argv[..i], [argv[i]]);
      ParseOne(argv[i]);
      assert argv[..i] + [argv[i]] == argv[..i + 1];
      var node := ParseLine(argv[i]);
      if node.Some? {
        nodes := nodes + [node.value];
      }
    }
    assert argv[..|argv|] == argv;
  }

  lemma {:induction false} PrintSplit(a: seq<Node>, b: seq<Node>)
    ensures Print(a + b) == Print(a) + Print(b)
  {
    if a == [] {
      assert a + b == b;
    } else {
      assert (a + b)[1..] == a[1..] + b;
      PrintSplit(a[1..], b);
    }
  }

  /** tree_getxml: appends one line per node to an empty buffer. */
  method GetXml(nodes: seq<Node>) returns (text: string)
    ensures text == Print(nodes)
  {
    text := [];
    for i := 0 to |nodes|
      invariant text == Print(nodes[..i])
    {
      PrintSplit(nodes[..i], [nodes[i]]);
      assert nodes[..i] + [nodes[i]] == nodes[..i + 1];
      text := text + (Line(nodes[i]) + "\n");
    }
    assert nodes[..|nodes|] == nodes;
  }
}
