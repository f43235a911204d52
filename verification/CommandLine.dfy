/** The launcher's command line: quoting arguments, joining them, and the parser that works in place. */
module CommandLine {

  const NUL: char := '\0'

  /** isspace in the C locale. */
  predicate IsSpace(c: char) {
    c == ' ' || '\t' <= c <= '\r'
  }

  /** Blank, tab, line feed, vertical tab, form feed and carriage return. */
  lemma SpacesAre(c: char)
    ensures IsSpace(c) <==> c as int in {32, 9, 10, 11, 12, 13}
  {
  }

  // ----- The parser, as a function -----

  /** The number of backslashes s starts with. */
  function Slashes(s: string): (n: nat)
    ensures n <= |s| && (forall i | 0 <= i < n :: s[i] == '\\') && (n < |s| ==> s[n] != '\\')
  {
    if s != "" && s[0] == '\\' then 1 + Slashes(s[1..]) else 0
  }

  function Repeat(c: char, n: nat): (r: string)
    ensures |r| == n && forall i | 0 <= i < n :: r[i] == c
  {
    seq(n, _ => c)
  }

  /** Do these leading backslashes protect a quote? */
  predicate Protects(s: string) {
    Slashes(s) < |s| && s[Slashes(s)] == '"'
  }

  /** One argument from the front of s, and what is left, from the space that ends it. */
  function Scan(s: string, quoted: bool): (string, string)
    decreases |s|
  {
    if s == "" || (IsSpace(s[0]) && !quoted) then ("", s)
    else if s[0] == '"' then Scan(s[1..], !quoted)
    else if s[0] == '\\' && Protects(s) then
      var n := Slashes(s);
      var (w, r) := Scan(s[n + n % 2..], quoted);
      (Repeat('\\', n / 2) + Repeat('"', n % 2) + w, r)
    else
      var (w, r) := Scan(s[1..], quoted);
      ([s[0]] + w, r)
  }

  lemma SuffixOf(s: string, k: nat, n: nat)
    requires k <= |s| && n <= |s| - k
    ensures s[k..][|s| - k - n..] == s[|s| - n..]
  {
  }

  /** One step of the scan: over a quote, over the backslashes before a quote, or over one character. */
  lemma ScanOnce(s: string, quoted: bool) returns (k: nat, inside: bool)
    requires s != "" && (quoted || !IsSpace(s[0]))
    ensures 0 < k <= |s|
    ensures var (w, r) := Scan(s, quoted); var (w', r') := Scan(s[k..], inside);
      r == r' && |w| <= k + |w'| && (NUL !in s && NUL !in w' ==> NUL !in w)
  {
    if s[0] == '"' {
      k, inside := 1, !quoted;
    } else if s[0] == '\\' && Protects(s) {
      k, inside := Slashes(s) + Slashes(s) % 2, quoted;
    } else {
      k, inside := 1, quoted;
    }
  }

  lemma {:induction false} ScanShrinks(s: string, quoted: bool)
    ensures var (w, r) := Scan(s, quoted); |w| + |r| <= |s| && r == s[|s| - |r|..] && (NUL !in s ==> NUL !in w)
    decreases |s|
  {
    if s != "" && (quoted || !IsSpace(s[0])) {
      var k, inside := ScanOnce(s, quoted);
      hide Scan;
      ScanShrinks(s[k..], inside);
      SuffixOf(s, k, |Scan(s[k..], inside).1|);
    }
  }

  function SkipSpaces(s: string): (r: string)
    ensures |r| <= |s| && r == s[|s| - |r|..] && (r != "" ==> !IsSpace(r[0]))
  {
    if s != "" && IsSpace(s[0]) then SkipSpaces(s[1..]) else s
  }

  function Tail(s: string): string {
    if s == "" then s else s[1..]
  }

  /** All arguments in s; empty ones do not count. */
  function Words(s: string): seq<string>
    decreases |s|
  {
    if s == "" then []
    else
      var (w, r) := Scan(SkipSpaces(s), false);
      ScanShrinks(SkipSpaces(s), false);
      (if w == "" then [] else [w]) + Words(Tail(r))
  }

  // ----- Quoting, as a function -----

  predicate Special(c: char) {
    IsSpace(c) || c == '\'' || c == '"'
  }

  predicate NeedsQuotes(s: string) {
    exists i :: 0 <= i < |s| && Special(s[i])
  }

  /** What protect writes between the outer quotes, after k backslashes. */
  function Body(s: string, k: nat): string {
    if s == "" then ""
    else if s[0] == '"' then Repeat('\\', k) + "\"\\\"\"" + Body(s[1..], 0)
    else if s[0] == '\\' then "\\" + Body(s[1..], k + 1)
    else [s[0]] + Body(s[1..], 0)
  }

  function Protected(s: string): string {
    if NeedsQuotes(s) then "\"" + Body(s, 0) + "\"" else s
  }

  // ----- protect -----

  /** The bound protect computes, for s after k backslashes. */
  function Quotes(s: string, k: nat): nat {
    if s == "" then 0
    else if s[0] == '"' then 1 + 2 * k + Quotes(s[1..], 0)
    else if s[0] == '\\' then Quotes(s[1..], k + 1)
    else Quotes(s[1..], 0)
  }

  lemma {:induction false} BodyFits(s: string, k: nat)
    ensures |Body(s, k)| <= |s| + 3 * Quotes(s, k)
    decreases |s|
  {
    if s != "" {
      BodyFits(s[1..], if s[0] == '\\' then k + 1 else 0);
    }
  }

  /** The first loop of protect: is there something to protect, and how much room does that take? */
  method CountQuotes(s: string) returns (hasSpace: bool, hasQuote: nat)
    ensures hasQuote == Quotes(s, 0) && (hasSpace || 0 < hasQuote <==> NeedsQuotes(s))
  {
    hasSpace, hasQuote := false, 0;
    var wasSlash, i := 0, 0;
    while i < |s|
      invariant 0 <= i <= |s| && 0 <= wasSlash && hasQuote + Quotes(s[i..], wasSlash) == Quotes(s, 0)
      invariant hasSpace || 0 < hasQuote <==> exists j :: 0 <= j < i && Special(s[j])
    {
      assert s[i..][1..] == s[i + 1..];
      if IsSpace(s[i]) || s[i] == '\'' {
        hasSpace := true;
        wasSlash := 0;
      } else if s[i] == '"' {
        hasQuote := hasQuote + 1 + 2 * wasSlash;
        wasSlash := 0;
      } else if s[i] == '\\' {
        wasSlash := wasSlash + 1;
      } else {
        wasSlash := 0;
      }
      i := i + 1;
    }
  }

  /** A write through a moving pointer. */
  method Put(buf: array<char>, p: nat, c: char) returns (p': nat)
    requires p < buf.Length
    modifies buf
    ensures p' == p + 1 && buf[..p'] == old(buf[..p]) + [c] && buf[p'..] == old(buf[p'..])
  {
    buf[p] := c;
    p' := p + 1;
  }

  /** The loop that doubles the backslashes before a quote. */
  method PutSlashes(buf: array<char>, p: nat, k: nat) returns (p': nat)
    requires p + k <= buf.Length
    modifies buf
    ensures p' == p + k && buf[..p'] == old(buf[..p]) + Repeat('\\', k)
  {
    p' := p;
    var wroteSlash := k;
    while 0 < wroteSlash
      invariant 0 <= wroteSlash <= k && p' + wroteSlash == p + k
      invariant buf[..p'] == old(buf[..p]) + Repeat('\\', k - wroteSlash)
    {
      p' := Put(buf, p', '\\');
      wroteSlash := wroteSlash - 1;
      assert Repeat('\\', k - wroteSlash) == Repeat('\\', k - wroteSlash - 1) + ['\\'];
    }
  }

  /** What protect writes for a quote after k backslashes. */
  method PutQuote(buf: array<char>, p: nat, k: nat) returns (p': nat)
    requires p + k + 4 <= buf.Length
    modifies buf
    ensures p' == p + k + 4 && buf[..p'] == old(buf[..p]) + (Repeat('\\', k) + "\"\\\"\"")
  {
    p' := PutSlashes(buf, p, k);
    p' := Put(buf, p', '"');
    p' := Put(buf, p', '\\');
    p' := Put(buf, p', '"');
    p' := Put(buf, p', '"');
  }

  /** protect; every write stays within the buffer it has computed. */
  method Protect(s: string) returns (r: string)
    ensures r == Protected(s)
  {
    hide Quotes, Body, Repeat, NeedsQuotes;
    var hasSpace, hasQuote := CountQuotes(s);
    if !hasSpace && hasQuote == 0 {
      return s;
    }
    BodyFits(s, 0);
    var naya := new char[|s| + 3 + 3 * hasQuote];
    var p := Put(naya, 0, '"');
    var wroteSlash, i := 0, 0;
    ghost var all := "\"" + Body(s, 0);
    assert s[0..] == s;
    while i < |s|
      invariant 0 <= i <= |s| && 0 <= wroteSlash && p <= naya.Length
      invariant naya[..p] + Body(s[i..], wroteSlash) == all
    {
      BodyNext(s, i, wroteSlash);
      ghost var before, piece := naya[..p], Piece(s[i], wroteSlash);
      Regroup(before, piece, Body(s[i + 1..], if s[i] == '\\' then wroteSlash + 1 else 0));
      if s[i] == '"' {
        p := PutQuote(naya, p, wroteSlash);
        wroteSlash := 0;
      } else if s[i] == '\\' {
        p := Put(naya, p, '\\');
        wroteSlash := wroteSlash + 1;
      } else {
        p := Put(naya, p, s[i]);
        wroteSlash := 0;
      }
      assert naya[..p] == before + piece;
      i := i + 1;
    }
    BodyEnd(s[i..], wroteSlash);
    p := Put(naya, p, '"');
    p := Put(naya, p, NUL);
    r := naya[..p - 1];
  }

  lemma BodyEnd(s: string, k: nat)
    requires s == ""
    ensures Body(s, k) == ""
  {
  }

  /** What protect writes for one character after k backslashes. */
  function Piece(c: char, k: nat): string {
    if c == '"' then Repeat('\\', k) + "\"\\\"\"" else [c]
  }

  lemma BodyNext(s: string, i: nat, k: nat)
    requires i < |s|
    ensures Body(s[i..], k) == Piece(s[i], k) + Body(s[i + 1..], if s[i] == '\\' then k + 1 else 0)
  {
  }

  lemma Regroup(x: string, y: string, z: string)
    ensures x + (y + z) == (x + y) + z
  {
  }

  // ----- make_command_line -----

  /** The line after args have been added to line: a space goes before each unless the line is still empty. */
  function AddedTo(line: string, args: seq<string>): string
    decreases |args|
  {
    if args == [] then line
    else AddedTo((if line == "" then "" else line + " ") + args[0], args[1..])
  }

  function Room(args: seq<string>): nat {
    if args == [] then 0 else |args[0]| + 1 + Room(args[1..])
  }

  lemma {:induction false} AddedFits(line: string, args: seq<string>)
    ensures |AddedTo(line, args)| <= |line| + Room(args)
    ensures line == "" && args != [] ==> |AddedTo(line, args)| < Room(args)
    ensures |line| <= |AddedTo(line, args)|
    decreases |args|
  {
    if args != [] {
      AddedFits((if line == "" then "" else line + " ") + args[0], args[1..]);
    }
  }

  /** make_command_line: every write stays within the buffer, unless there are no arguments at all. Then the
      buffer is empty and the terminator is written past its end, for which fits is false. */
  method MakeCommandLine(argv: seq<string>) returns (buf: array<char>, len: nat, fits: bool)
    ensures fits <==> argv != []
    ensures fits ==> len < buf.Length && buf[len] == NUL
    ensures len <= buf.Length && buf[..len] == AddedTo("", argv) && fresh(buf)
  {
    var room, i := 0, 0;
    while i < |argv|
      invariant 0 <= i <= |argv| && 0 <= room && room + Room(argv[i..]) == Room(argv)
    {
      assert argv[i..][1..] == argv[i + 1..];
      room := room + |argv[i]| + 1;
      i := i + 1;
    }
    AddedFits("", argv);
    buf := new char[room];
    len, i := 0, 0;
    while i < |argv|
      invariant 0 <= i <= |argv| && len <= buf.Length == room && AddedTo(buf[..len], argv[i..]) == AddedTo("", argv)
    {
      assert argv[i..][1..] == argv[i + 1..];
      ghost var line := buf[..len];
      AddedFits((if line == "" then "" else line + " ") + argv[i], argv[i + 1..]);
      if len != 0 {
        len := Put(buf, len, ' ');
      }
      len := PutAll(buf, len, argv[i]);
      i := i + 1;
    }
    fits := len < buf.Length;
    if fits {
      buf[len] := NUL;
    }
  }

  /** memcpy of a string. */
  method PutAll(buf: array<char>, p: nat, s: string) returns (p': nat)
    requires p + |s| <= buf.Length
    modifies buf
    ensures p' == p + |s| && buf[..p'] == old(buf[..p]) + s
  {
    p' := p;
    for i := 0 to |s|
      invariant p' == p + i && buf[..p'] == old(buf[..p]) + s[..i]
    {
      p' := Put(buf, p', s[i]);
    }
  }

  // ----- parse_command_line, in place -----

  /** From place n on, b is the unread part of text, with its terminator. */
  ghost predicate Unread(b: seq<char>, text: string, n: nat) {
    n <= |text| && |b| == |text| + 1 && b[n..] == text[n..] + [NUL]
  }

  lemma UnreadAt(b: seq<char>, text: string, n: nat, k: nat)
    requires Unread(b, text, n) && n <= k <= |text|
    ensures b[k] == if k < |text| then text[k] else NUL
    ensures Unread(b, text, k)
  {
  }

  /** Writing below n leaves the rest unread. */
  lemma StillUnread(b: seq<char>, b': seq<char>, text: string, n: nat, m: nat, k: nat)
    requires Unread(b, text, n) && |b'| == |b| && m <= |b| && b'[m..] == b[m..] && n <= k <= |text| && m <= k
    ensures Unread(b', text, k)
  {
    UnreadAt(b, text, n, k);
    assert b'[k..] == b'[m..][k - m..] == b[m..][k - m..] == b[k..];
  }

  /** A write through the write pointer of the parser: what was written before stays. */
  method Write(buf: array<char>, write: nat, c: char, ghost from: nat) returns (write': nat)
    requires from <= write < buf.Length
    modifies buf
    ensures write' == write + 1 && buf[..from] == old(buf[..from]) && buf[from..write'] == old(buf[from..write]) + [c]
    ensures buf[write'..] == old(buf[write'..])
  {
    buf[write] := c;
    write' := write + 1;
  }

  /** The first loop of the backslash case: the end of the run of backslashes at parse. */
  method EndOfSlashes(buf: array<char>, parse: nat, ghost text: string) returns (next: nat)
    requires parse < |text| && Unread(buf[..], text, parse) && NUL !in text
    ensures next == parse + Slashes(text[parse..]) && next <= |text|
    ensures buf[next] == if next < |text| then text[next] else NUL
  {
    hide Slashes, Unread;
    ghost var rest := text[parse..];
    next := parse;
    UnreadAt(buf[..], text, parse, parse);
    while buf[next] == '\\'
      invariant parse <= next <= |text| && buf.Length == |text| + 1 && next - parse <= Slashes(rest)
      invariant buf[next] == if next < |text| then text[next] else NUL
      decreases |text| - next
    {
      assert rest[next - parse] == '\\';
      next := next + 1;
      UnreadAt(buf[..], text, parse, next);
    }
    assert next < |text| ==> rest[next - parse] == text[next];
  }

  /** The second loop: half as many backslashes, and for an odd number the quote as well. */
  method WriteSlashes(buf: array<char>, write: nat, count: nat) returns (write': nat)
    requires write + count <= buf.Length && 0 < count
    modifies buf
    ensures write' == write + count / 2 + count % 2
    ensures buf[..write] == old(buf[..write]) && buf[write..write'] == Repeat('\\', count / 2) + Repeat('"', count % 2)
    ensures buf[write + count..] == old(buf[write + count..])
  {
    ghost var b := buf[..];
    write' := write;
    var i := 1;
    while i < count
      invariant 1 <= i <= count + 1 && i % 2 == 1 && write' == write + i / 2
      invariant buf[write..write'] == Repeat('\\', i / 2) && buf[..write] == b[..write]
      invariant buf[write + count..] == b[write + count..]
    {
      buf[write'] := '\\';
      write' := write' + 1;
      i := i + 2;
    }
    if count % 2 == 1 {
      buf[write'] := '"';
      write' := write' + 1;
    }
  }

  /** The backslash case: write what the run of backslashes at parse stands for. */
  method ScanSlashes(buf: array<char>, parse: nat, write: nat, ghost text: string) returns (parse': nat, write': nat)
    requires write <= parse < |text| && Unread(buf[..], text, parse) && text[parse] == '\\' && NUL !in text
    modifies buf
    ensures var n := Slashes(text[parse..]);
      if Protects(text[parse..]) then
        parse' + 1 == parse + n + n % 2 && write' == write + n / 2 + n % 2
        && buf[write..write'] == Repeat('\\', n / 2) + Repeat('"', n % 2)
      else parse' == parse && write' == write + 1 && buf[write..write'] == ['\\']
    ensures write' <= parse' + 1 <= |text| && Unread(buf[..], text, parse' + 1) && buf[..write] == old(buf[..write])
  {
    hide Slashes, Unread, Repeat;
    ghost var b := buf[..];
    parse', write' := parse, write;
    var next := EndOfSlashes(buf, parse, text);
    UnreadAt(b, text, parse, parse);
    SomeSlashes(text[parse..]);
    var count := next - parse;
    ghost var end := parse + count;
    if buf[next] == '"' {
      write' := WriteSlashes(buf, write, count);
      parse' := parse + count - 1;
      if count % 2 == 1 {
        parse' := parse' + 1;
      }
      StillUnread(b, buf[..], text, parse, write + count, parse' + 1);
    } else {
      buf[write'] := buf[parse];
      write' := write' + 1;
      StillUnread(b, buf[..], text, parse, write', parse' + 1);
    }
  }

  lemma SomeSlashes(s: string)
    requires s != "" && s[0] == '\\'
    ensures 0 < Slashes(s)
  {
  }

  lemma ScanEnd(text: string, p: nat, quoted: bool)
    requires p <= |text| && (p < |text| ==> IsSpace(text[p]) && !quoted)
    ensures Scan(text[p..], quoted) == ("", text[p..])
  {
  }

  lemma ScanAt(text: string, p: nat, quoted: bool)
    requires p < |text| && (!IsSpace(text[p]) || quoted)
    ensures var s := text[p..]; var n := Slashes(s);
      && p + n <= |text| && (Protects(s) ==> p + n + n % 2 <= |text|)
      && Scan(s, quoted) ==
         if text[p] == '"' then Scan(text[p + 1..], !quoted)
         else if text[p] == '\\' && Protects(s) then
           (Repeat('\\', n / 2) + Repeat('"', n % 2) + Scan(text[p + n + n % 2..], quoted).0, Scan(text[p + n + n % 2..], quoted).1)
         else ([text[p]] + Scan(text[p + 1..], quoted).0, Scan(text[p + 1..], quoted).1)
  {
  }

  /** One round of the inner loop, at a character that does not end the argument. */
  method ScanChar(buf: array<char>, parse: nat, write: nat, quoted: bool, ghost text: string)
    returns (parse': nat, write': nat, quoted': bool)
    requires write <= parse < |text| && Unread(buf[..], text, parse) && NUL !in text && (!IsSpace(text[parse]) || quoted)
    modifies buf
    ensures parse < parse' <= |text| && write <= write' <= parse' && Unread(buf[..], text, parse')
    ensures buf.Length == |text| + 1
    ensures buf[..write] == old(buf[..write])
    ensures Scan(text[parse..], quoted).0 == buf[write..write'] + Scan(text[parse'..], quoted').0
    ensures Scan(text[parse..], quoted).1 == Scan(text[parse'..], quoted').1
  {
    hide Slashes, Unread, Repeat, Protects, Scan;
    ghost var b := buf[..];
    parse', write', quoted' := parse, write, quoted;
    UnreadAt(b, text, parse, parse);
    ScanAt(text, parse, quoted);
    if buf[parse] == '"' {
      quoted' := !quoted;
      UnreadAt(b, text, parse, parse + 1);
    } else if buf[parse] == '\\' {
      parse', write' := ScanSlashes(buf, parse, write, text);
    } else {
      buf[write] := buf[parse];
      write' := write + 1;
      StillUnread(b, buf[..], text, parse, write', parse + 1);
    }
    parse' := parse' + 1;
    UnreadAt(buf[..], text, parse', parse');
  }

  lemma Slices(b: seq<char>, write: nat, from: nat, to: nat)
    requires write <= from <= to <= |b|
    ensures b[..write] == b[..from][..write] && b[write..to] == b[..from][write..] + b[from..to]
  {
  }

  /** The inner loop: read one argument from parse on and write it at write. */
  method ScanWord(buf: array<char>, parse: nat, write: nat, ghost text: string) returns (parse': nat, write': nat)
    requires write <= parse <= |text| && Unread(buf[..], text, parse) && NUL !in text
    modifies buf
    ensures parse <= parse' <= |text| && write <= write' <= parse' && Unread(buf[..], text, parse')
    ensures buf.Length == |text| + 1
    ensures buf[..write] == old(buf[..write]) && Scan(text[parse..], false) == (buf[write..write'], text[parse'..])
  {
    hide Unread, Scan;
    parse', write' := parse, write;
    var findquote := false;
    ghost var all := Scan(text[parse..], false);
    UnreadAt(buf[..], text, parse, parse);
    while buf[parse'] != NUL && (!IsSpace(buf[parse']) || findquote)
      invariant parse <= parse' <= |text| && write <= write' <= parse' && buf.Length == |text| + 1
      invariant Unread(buf[..], text, parse') && buf[parse'] == (if parse' < |text| then text[parse'] else NUL)
      invariant buf[..write] == old(buf[..write])
      invariant all.0 == buf[write..write'] + Scan(text[parse'..], findquote).0
      invariant all.1 == Scan(text[parse'..], findquote).1
      decreases |text| - parse'
    {
      ghost var from, done := write', buf[..write'];
      parse', write', findquote := ScanChar(buf, parse', write', findquote, text);
      Slices(buf[..], write, from, write');
      assert buf[..write] == done[..write];
      UnreadAt(buf[..], text, parse', parse');
    }
    ScanEnd(text, parse', findquote);
    assert buf[write..write'] + "" == buf[write..write'];
  }

  /** The zero-terminated string at place p. */
  predicate StringAt(b: seq<char>, p: nat, w: string) {
    p + |w| < |b| && b[p..p + |w|] == w && b[p + |w|] == NUL
  }

  /** The parser's pointers between two arguments: the write pointer has not overtaken what is still unread. */
  ghost predicate InPlace(b: seq<char>, text: string, parse: nat, write: nat) {
    && |b| == |text| + 1 && parse <= |text| && write <= |b|
    && (if parse < |text| then write <= parse && Unread(b, text, parse) else b[parse] == NUL)
  }

  /** The loop that skips spaces. */
  method SkipBlanks(buf: array<char>, parse: nat, ghost text: string) returns (parse': nat)
    requires parse <= |text| && Unread(buf[..], text, parse) && NUL !in text
    ensures parse <= parse' <= |text| && Unread(buf[..], text, parse') && SkipSpaces(text[parse..]) == text[parse'..]
  {
    hide Unread, SkipSpaces;
    parse' := parse;
    UnreadAt(buf[..], text, parse, parse);
    while buf[parse'] != NUL && IsSpace(buf[parse'])
      invariant parse <= parse' <= |text| && buf.Length == |text| + 1 && Unread(buf[..], text, parse')
      invariant buf[parse'] == (if parse' < |text| then text[parse'] else NUL)
      invariant SkipSpaces(text[parse..]) == SkipSpaces(text[parse'..])
      decreases |text| - parse'
    {
      SkipAt(text, parse');
      parse' := parse' + 1;
      UnreadAt(buf[..], text, parse, parse');
    }
    SkipAt(text, parse');
  }

  /** Step over the space that ended an argument, and terminate the argument. */
  method Terminate(buf: array<char>, parse: nat, write: nat, ghost text: string) returns (parse': nat, write': nat)
    requires write <= parse <= |text| && buf.Length == |text| + 1 && Unread(buf[..], text, parse) && NUL !in text
    modifies buf
    ensures InPlace(buf[..], text, parse', write') && write' == write + 1
    ensures parse' == (if parse < |text| then parse + 1 else parse)
    ensures buf[..write] == old(buf[..write]) && buf[write] == NUL
  {
    hide Unread;
    ghost var b := buf[..];
    UnreadAt(b, text, parse, parse);
    parse' := if buf[parse] != NUL then parse + 1 else parse;
    UnreadAt(b, text, parse, parse');
    buf[write] := NUL;
    write' := write + 1;
    if parse < |text| {
      StillUnread(b, buf[..], text, parse, write', parse');
      UnreadAt(buf[..], text, parse', parse');
    }
  }

  /** One round of the outer loop: skip spaces, read an argument and terminate it. */
  method ParseWord(buf: array<char>, parse: nat, write: nat, ghost text: string)
    returns (parse': nat, write': nat, ghost w: string)
    requires InPlace(buf[..], text, parse, write) && parse < |text| && NUL !in text
    modifies buf
    ensures InPlace(buf[..], text, parse', write') && parse < parse' <= |text| && write' == write + |w| + 1
    ensures buf[..write] == old(buf[..write]) && StringAt(buf[..], write, w) && NUL !in w
    ensures Words(text[parse..]) == (if w == "" then [] else [w]) + Words(text[parse'..])
  {
    hide Unread, InPlace, Scan, Words, SkipSpaces;
    InPlaceUnread(buf[..], text, parse, write);
    var start := SkipBlanks(buf, parse, text);
    ScanShrinks(text[start..], false);
    ghost var b := buf[..];
    var end, stop := ScanWord(buf, start, write, text);
    w := buf[write..stop];
    ghost var b1 := buf[..];
    WordsAt(text, parse, start, end);
    parse', write' := Terminate(buf, end, stop, text);
    Prefixes(b, b1, buf[..], write, stop);
  }

  lemma InPlaceUnread(b: seq<char>, text: string, parse: nat, write: nat)
    requires InPlace(b, text, parse, write) && parse < |text|
    ensures write <= parse && Unread(b, text, parse) && |b| == |text| + 1
  {
  }

  lemma Prefixes(b: seq<char>, b1: seq<char>, b2: seq<char>, write: nat, stop: nat)
    requires write <= stop <= |b1| && |b| == |b1| == |b2| && b1[..write] == b[..write] && b2[..stop] == b1[..stop]
    ensures b2[..write] == b[..write] && b2[write..stop] == b1[write..stop]
  {
  }

  lemma SkipAt(text: string, p: nat)
    requires p <= |text|
    ensures SkipSpaces(text[p..]) == if p < |text| && IsSpace(text[p]) then SkipSpaces(text[p + 1..]) else text[p..]
  {
  }

  /** The argument that starts at p1, after the spaces from p on, and ends at p2. */
  lemma WordsAt(text: string, p: nat, p1: nat, p2: nat)
    requires p < |text| && p <= p1 <= p2 <= |text| && SkipSpaces(text[p..]) == text[p1..]
    requires Scan(text[p1..], false).1 == text[p2..]
    ensures var w := Scan(text[p1..], false).0;
      Words(text[p..]) == (if w == "" then [] else [w]) + Words(text[if p2 < |text| then p2 + 1 else p2..])
    ensures p2 == |text| || p < p2 + 1
  {
    hide Scan, SkipSpaces;
    if p2 < |text| {
      assert Tail(text[p2..]) == text[p2 + 1..];
    }
  }

  /** parse_command_line, for a buffer that holds text. The words, but for the first skip ones, are left
      in the buffer and their places are entered into command, as far as there is room. */
  method ParseCommandLine(count: nat, command: array<nat>, buf: array<char>, maxargs: nat, skip: nat,
                          ghost text: string)
    returns (count': nat)
    requires count < maxargs <= command.Length && buf[..] == text + [NUL] && NUL !in text
    modifies buf, command
    ensures command[..count] == old(command[..count])
    ensures count <= count' <= command.Length
    ensures Entered(buf[..], command[count..count'], Kept(Words(text), skip, maxargs - count), buf.Length)
  {
    hide Unread, InPlace, Scan, Words, StringAt, Parsed, Entered, Kept;
    count' := count;
    var parse, created, write, skip' := 0, 0, 0, skip;
    ghost var seen: seq<string> := [];      // the words read so far
    ParsedNone(buf[..], text, command[..], count, skip);
    while buf[parse] != NUL
      invariant created == write && parse <= |text| && buf.Length == |text| + 1 && count <= count' < maxargs
      invariant Parsed(buf[..], text, command[..], count, count', parse, write, seen, skip)
      invariant skip' == (if |seen| <= skip then skip - |seen| else 0)
      invariant command[..count] == old(command[..count])
      decreases |text| - parse
    {
      ghost var b, p, w := buf[..], parse, "";
      ParsedAt(b, text, command[..], count, count', parse, write, seen, skip);
      parse, write, w := ParseWord(buf, parse, write, text);
      FirstChar(buf[..], created, w);
      if buf[created] != NUL {
        if skip' != 0 {
          ParsedWord(b, buf[..], text, command[..], command[..], count, count', p, parse, created, write, seen, skip, w);
          skip' := skip' - 1;
          seen := seen + [w];
        } else {
          ghost var c := command[..];
          command[count'] := created;
          ParsedWord(b, buf[..], text, c, command[..], count, count', p, parse, created, write, seen, skip, w);
          seen := seen + [w];
          count' := count' + 1;
          if count' == maxargs {
            ParsedEnough(buf[..], text, command[..], count, count', parse, write, seen, skip);
            return;
          }
        }
      } else {
        assert [] + Words(text[parse..]) == Words(text[parse..]);
        ParsedNothing(b, buf[..], text, command[..], count, count', p, parse, created, write, seen, skip);
      }
      created := write;
    }
    ParsedAt(buf[..], text, command[..], count, count', parse, write, seen, skip);
    ParsedAll(buf[..], text, command[..], count, count', parse, write, seen, skip, maxargs - count);
  }

  /** The state of the parser between two arguments, of which it has read those in seen. */
  ghost predicate Parsed(b: seq<char>, text: string, c: seq<nat>, count: nat, count': nat, parse: nat, write: nat,
                         seen: seq<string>, skip: nat) {
    && InPlace(b, text, parse, write) && Words(text) == seen + Words(text[parse..])
    && count <= count' <= |c| && Entered(b, c[count..count'], After(seen, skip), write)
  }

  lemma ParsedNone(b: seq<char>, text: string, c: seq<nat>, count: nat, skip: nat)
    requires b == text + [NUL] && count <= |c|
    ensures Parsed(b, text, c, count, count, 0, 0, [], skip)
  {
  }

  lemma ParsedAt(b: seq<char>, text: string, c: seq<nat>, count: nat, count': nat, parse: nat, write: nat,
                 seen: seq<string>, skip: nat)
    requires Parsed(b, text, c, count, count', parse, write, seen, skip) && NUL !in text
    ensures parse <= |text| && |b| == |text| + 1 && InPlace(b, text, parse, write)
    ensures parse == |text| <==> b[parse] == NUL
    ensures count' == count + |After(seen, skip)|
    ensures parse == |text| ==> Words(text) == seen
  {
  }

  /** An argument has been read, and entered unless it is to be skipped. */
  lemma ParsedWord(b: seq<char>, b': seq<char>, text: string, c: seq<nat>, c': seq<nat>, count: nat, count': nat,
                   parse: nat, parse': nat, write: nat, write': nat, seen: seq<string>, skip: nat, w: string)
    requires Parsed(b, text, c, count, count', parse, write, seen, skip) && InPlace(b', text, parse', write')
    requires |b'| == |b| && write <= |b| && b'[..write] == b[..write] && StringAt(b', write, w)
    requires write' == write + |w| + 1
    requires parse <= |text| && parse' <= |text| && Words(text[parse..]) == [w] + Words(text[parse'..])
    requires if |seen| < skip then c' == c else count' < |c| && c' == c[count' := write]
    ensures Parsed(b', text, c', count, if |seen| < skip then count' else count' + 1, parse', write', seen + [w], skip)
  {
    hide Words, StringAt, InPlace, Entered;
    assert seen + ([w] + Words(text[parse'..])) == (seen + [w]) + Words(text[parse'..]);
    EnteredLength(b, c[count..count'], After(seen, skip), write);
    if |seen| < skip {
      EnteredStill(b, b', c[count..count'], After(seen, skip), write, write');
    } else {
      EnteredStill(b, b', c[count..count'], After(seen, skip), write, write);
      EnteredMore(b', c[count..count'], After(seen, skip), write, w, write');
      assert c'[count..count' + 1] == c[count..count'] + [write];
      assert After(seen + [w], skip) == After(seen, skip) + [w];
    }
  }

  /** Only spaces, or an empty argument, have been read. */
  lemma ParsedNothing(b: seq<char>, b': seq<char>, text: string, c: seq<nat>, count: nat, count': nat,
                      parse: nat, parse': nat, write: nat, write': nat, seen: seq<string>, skip: nat)
    requires Parsed(b, text, c, count, count', parse, write, seen, skip) && InPlace(b', text, parse', write')
    requires |b'| == |b| && write <= |b| && b'[..write] == b[..write] && write <= write'
    requires parse <= |text| && parse' <= |text| && Words(text[parse..]) == Words(text[parse'..])
    ensures Parsed(b', text, c, count, count', parse', write', seen, skip)
  {
    hide Words, InPlace, Entered;
    EnteredStill(b, b', c[count..count'], After(seen, skip), write, write');
  }

  lemma ParsedEnough(b: seq<char>, text: string, c: seq<nat>, count: nat, count': nat, parse: nat, write: nat,
                     seen: seq<string>, skip: nat)
    requires Parsed(b, text, c, count, count', parse, write, seen, skip) && count < count'
    ensures Entered(b, c[count..count'], Kept(Words(text), skip, count' - count), |b|)
  {
    hide Words, Entered;
    EnteredLength(b, c[count..count'], After(seen, skip), write);
    EnteredStill(b, b, c[count..count'], After(seen, skip), write, |b|);
    EnoughWords(Words(text), seen, Words(text[parse..]), skip, count' - count);
  }

  lemma ParsedAll(b: seq<char>, text: string, c: seq<nat>, count: nat, count': nat, parse: nat, write: nat,
                  seen: seq<string>, skip: nat, room: nat)
    requires Parsed(b, text, c, count, count', parse, write, seen, skip) && Words(text) == seen
    requires count' - count <= room
    ensures Entered(b, c[count..count'], Kept(Words(text), skip, room), |b|)
  {
  }

  lemma EnteredLength(b: seq<char>, places: seq<nat>, ws: seq<string>, write: nat)
    requires Entered(b, places, ws, write)
    ensures |places| == |ws|
  {
  }

  function Kept(ws: seq<string>, skip: nat, room: nat): seq<string> {
    if |ws| <= skip then [] else if |ws| - skip <= room then ws[skip..] else ws[skip..skip + room]
  }

  lemma FirstChar(b: seq<char>, p: nat, w: string)
    requires StringAt(b, p, w) && NUL !in w
    ensures p < |b| && (b[p] == NUL <==> w == "")
  {
  }

  /** The words ws stand at these places, below the write pointer. */
  ghost predicate Entered(b: seq<char>, places: seq<nat>, ws: seq<string>, write: nat) {
    |places| == |ws| && forall k | 0 <= k < |ws| :: StringAt(b, places[k], ws[k]) && places[k] + |ws[k]| < write
  }

  function After(seen: seq<string>, skip: nat): seq<string> {
    if |seen| <= skip then [] else seen[skip..]
  }

  lemma EnteredStill(b: seq<char>, b': seq<char>, places: seq<nat>, ws: seq<string>, write: nat, write': nat)
    requires Entered(b, places, ws, write) && |b| == |b'| && write <= |b| && b[..write] == b'[..write]
    requires write <= write'
    ensures Entered(b', places, ws, write')
  {
  }

  lemma EnteredMore(b: seq<char>, places: seq<nat>, ws: seq<string>, p: nat, w: string, write: nat)
    requires Entered(b, places, ws, p) && StringAt(b, p, w) && write == p + |w| + 1
    ensures Entered(b, places + [p], ws + [w], write)
  {
  }

  lemma EnoughWords(all: seq<string>, seen: seq<string>, rest: seq<string>, skip: nat, room: nat)
    requires all == seen + rest && |seen| == skip + room
    ensures Kept(all, skip, room) == After(seen, skip)
  {
  }

  // ----- Printing and parsing undo each other -----

  predicate EndsInBackslash(s: string) {
    s != "" && s[|s| - 1] == '\\'
  }

  function ProtectedAll(args: seq<string>): (r: seq<string>)
    ensures |r| == |args| && forall i | 0 <= i < |r| :: r[i] == Protected(args[i])
  {
    if args == [] then [] else [Protected(args[0])] + ProtectedAll(args[1..])
  }

  /** The line make_command_line builds from protected arguments. */
  function LineOf(args: seq<string>): string {
    AddedTo("", ProtectedAll(args))
  }

  function Joined(args: seq<string>): string {
    if args == [] then "" else if |args| == 1 then args[0] else args[0] + (" " + Joined(args[1..]))
  }

  lemma {:induction false} AddedIsJoined(line: string, args: seq<string>)
    requires forall i | 0 <= i < |args| :: args[i] != ""
    ensures AddedTo(line, args) == if args == [] then line else if line == "" then Joined(args)
      else line + (" " + Joined(args))
    decreases |args|
  {
    if args != [] {
      AddedIsJoined((if line == "" then "" else line + " ") + args[0], args[1..]);
      Regroup(line + " ", args[0], " " + Joined(args[1..]));
      Regroup(line, " ", args[0] + (" " + Joined(args[1..])));
      Regroup(line, " ", args[0]);
    }
  }

  /** After s come only characters that do not make its backslashes protect anything. */
  predicate Harmless(rest: string) {
    rest == "" || (rest[0] != '"' && rest[0] != '\\')
  }

  lemma {:induction false} SlashesOf(n: nat, rest: string)
    requires rest == "" || rest[0] != '\\'
    ensures Slashes(Repeat('\\', n) + rest) == n
    decreases n
  {
    if 0 < n {
      SlashesOf(n - 1, rest);
      assert (Repeat('\\', n) + rest)[1..] == Repeat('\\', n - 1) + rest;
    } else {
      assert Repeat('\\', n) + rest == rest;
    }
  }

  lemma {:induction false} ScanSlashesPlain(n: nat, rest: string, quoted: bool)
    requires Harmless(rest)
    ensures Scan(Repeat('\\', n) + rest, quoted).0 == Repeat('\\', n) + Scan(rest, quoted).0
    ensures Scan(Repeat('\\', n) + rest, quoted).1 == Scan(rest, quoted).1
    decreases n
  {
    hide Scan, Slashes;
    var s := Repeat('\\', n) + rest;
    if 0 < n {
      SlashesOf(n, rest);
      ScanOneSlash(s, quoted);
      assert s[1..] == Repeat('\\', n - 1) + rest;
      ScanSlashesPlain(n - 1, rest, quoted);
      assert Repeat('\\', n) == ['\\'] + Repeat('\\', n - 1);
      Regroup(['\\'], Repeat('\\', n - 1), Scan(rest, quoted).0);
    } else {
      assert s == rest && "" + Scan(rest, quoted).0 == Scan(rest, quoted).0;
    }
  }

  lemma ScanOneSlash(s: string, quoted: bool)
    requires s != "" && s[0] == '\\' && !Protects(s)
    ensures Scan(s, quoted).0 == ['\\'] + Scan(s[1..], quoted).0 && Scan(s, quoted).1 == Scan(s[1..], quoted).1
  {
  }

  lemma ScanRun(s: string, quoted: bool)
    requires s != "" && s[0] == '\\' && Protects(s)
    ensures Slashes(s) + Slashes(s) % 2 <= |s|
    ensures var n := Slashes(s); var (w, r) := Scan(s[n + n % 2..], quoted);
      Scan(s, quoted) == (Repeat('\\', n / 2) + Repeat('"', n % 2) + w, r)
  {
  }

  /** A run of backslashes before a quote. */
  lemma ScanSlashesQuote(n: nat, rest: string, quoted: bool)
    requires 0 < n
    ensures var after := if n % 2 == 0 then Scan("\"" + rest, quoted) else Scan(rest, quoted);
      var all := Scan(Repeat('\\', n) + ("\"" + rest), quoted);
      all.0 == Repeat('\\', n / 2) + Repeat('"', n % 2) + after.0 && all.1 == after.1
  {
    var s := Repeat('\\', n) + ("\"" + rest);
    hide Scan, Slashes;
    SlashesOf(n, "\"" + rest);
    ScanRun(s, quoted);
    assert s[n + n % 2..] == if n % 2 == 0 then "\"" + rest else rest;
  }

  /** The quotes protect writes for one quote, read inside quotes. */
  lemma ScanQuote(rest: string)
    ensures Scan("\"\\\"\"" + rest, true).0 == "\"" + Scan(rest, true).0
    ensures Scan("\"\\\"\"" + rest, true).1 == Scan(rest, true).1
  {
    var s := "\"\\\"\"" + rest;
    var s1 := Repeat('\\', 1) + ("\"" + ("\"" + rest));
    assert s[1..] == s1;
    ScanSlashesQuote(1, "\"" + rest, false);
    assert ("\"" + rest)[1..] == rest;
    assert Repeat('\\', 0) + Repeat('"', 1) == "\"";
  }

  lemma {:induction false} BodySlashes(s: string, k: nat)
    ensures Body(s, k) == Repeat('\\', Slashes(s)) + Body(s[Slashes(s)..], k + Slashes(s))
    decreases |s|
  {
    hide Repeat;
    if s != "" && s[0] == '\\' {
      BodySlashes(s[1..], k + 1);
      assert s[1..][Slashes(s[1..])..] == s[Slashes(s)..];
      MoreSlashes(Slashes(s[1..]));
    } else {
      assert s[0..] == s;
      MoreSlashes(0);
    }
  }

  lemma MoreSlashes(n: nat)
    ensures Repeat('\\', n + 1) == "\\" + Repeat('\\', n) && Repeat('\\', 0) == ""
  {
  }

  /** Read inside quotes, what protect wrote for s yields s, if s does not end in a backslash. */
  lemma {:induction false} ScanBody(s: string, rest: string)
    requires !EndsInBackslash(s)
    ensures Scan(Body(s, 0) + rest, true).0 == s + Scan(rest, true).0
    ensures Scan(Body(s, 0) + rest, true).1 == Scan(rest, true).1
    decreases |s|
  {
    hide Scan, Body, Repeat, Slashes;
    if s == "" {
      EmptyBody();
      assert "" + rest == rest;
    } else {
      var j := Slashes(s);
      var s' := s[j + 1..];
      BodySlashes(s, 0);
      ScanBody(s', rest);
      Rejoin(s, j, Scan(rest, true).0);
      if s[j] == '"' {
        ScanBodyQuote(s, rest);
      } else {
        ScanBodyOther(s, rest);
      }
    }
  }

  lemma Rejoin(s: string, j: nat, w: string)
    requires j < |s|
    ensures s[..j + 1] + (s[j + 1..] + w) == s + w
  {
  }

  lemma EmptyBody()
    ensures Body("", 0) == ""
  {
  }

  lemma ScanBodyQuote(s: string, rest: string)
    requires var j := Slashes(s); j < |s| && s[j] == '"'
    requires Body(s, 0) == Repeat('\\', Slashes(s)) + Body(s[Slashes(s)..], Slashes(s))
    ensures var s' := s[Slashes(s) + 1..]; var after := Scan(Body(s', 0) + rest, true);
      var all := Scan(Body(s, 0) + rest, true);
      all.0 == s[..Slashes(s) + 1] + after.0 && all.1 == after.1
  {
    hide Slashes, Scan;
    var j := Slashes(s);
    var rest' := Body(s[j + 1..], 0) + rest;
    assert s[j..][1..] == s[j + 1..];
    var x := "\"\\\"\"" + rest';
    assert Body(s, 0) + rest == Repeat('\\', 2 * j) + x;
    assert x == "\"" + ("\\\"\"" + rest');
    ScanQuote(rest');
    if 0 < j {
      ScanSlashesQuote(2 * j, "\\\"\"" + rest', true);
      assert Repeat('\\', j) + Repeat('"', 0) == Repeat('\\', j);
    } else {
      assert Repeat('\\', 0) + x == x;
    }
    assert s[..j + 1] == Repeat('\\', j) + "\"";
  }

  lemma ScanBodyOther(s: string, rest: string)
    requires var j := Slashes(s); j < |s| && s[j] != '"'
    requires Body(s, 0) == Repeat('\\', Slashes(s)) + Body(s[Slashes(s)..], Slashes(s))
    ensures var s' := s[Slashes(s) + 1..]; var after := Scan(Body(s', 0) + rest, true);
      var all := Scan(Body(s, 0) + rest, true);
      all.0 == s[..Slashes(s) + 1] + after.0 && all.1 == after.1
  {
    hide Scan, Slashes;
    var j := Slashes(s);
    var rest' := Body(s[j + 1..], 0) + rest;
    assert s[j..][1..] == s[j + 1..];
    var y := [s[j]] + rest';
    assert Body(s, 0) + rest == Repeat('\\', j) + y;
    ScanSlashesPlain(j, y, true);
    ScanPlain(s[j], rest');
    assert Repeat('\\', j) + ([s[j]] + Scan(rest', true).0) == (Repeat('\\', j) + [s[j]]) + Scan(rest', true).0;
    assert s[..j + 1] == Repeat('\\', j) + [s[j]];
  }

  lemma ScanPlain(c: char, rest: string)
    requires c != '"' && c != '\\'
    ensures Scan([c] + rest, true).0 == [c] + Scan(rest, true).0 && Scan([c] + rest, true).1 == Scan(rest, true).1
  {
  }

  /** An argument that needs no quotes is read back from where it stands, up to the space or the end. */
  lemma {:induction false} ScanRaw(s: string, rest: string)
    requires !NeedsQuotes(s) && (rest == "" || IsSpace(rest[0]))
    ensures Scan(s + rest, false) == (s, rest)
    decreases |s|
  {
    if s == "" {
      assert s + rest == rest;
    } else {
      assert !Special(s[0]);
      forall i | 0 <= i < |s[1..]| ensures !Special(s[1..][i]) {
        assert !Special(s[i + 1]);
      }
      ScanRaw(s[1..], rest);
      assert (s + rest)[1..] == s[1..] + rest && (s + rest)[0] == s[0];
      NoProtection(s, rest);
      assert [s[0]] + s[1..] == s;
    }
  }

  lemma NoProtection(s: string, rest: string)
    requires !NeedsQuotes(s) && (rest == "" || IsSpace(rest[0]))
    ensures !Protects(s + rest)
  {
    var n := Slashes(s + rest);
    assert rest != "" ==> (s + rest)[|s|] == rest[0];
    if n < |s| {
      assert (s + rest)[n] == s[n] && !Special(s[n]);
    }
  }

  lemma ScanGood(a: string, rest: string)
    requires (NeedsQuotes(a) ==> !EndsInBackslash(a)) && (rest == "" || IsSpace(rest[0]))
    ensures Scan(Protected(a) + rest, false) == (a, rest)
  {
    if NeedsQuotes(a) {
      var x := Body(a, 0) + ("\"" + rest);
      assert Protected(a) + rest == "\"" + x;
      assert ("\"" + x)[1..] == x;
      ScanBody(a, "\"" + rest);
      assert ("\"" + rest)[1..] == rest;
      assert a + "" == a;
    } else {
      ScanRaw(a, rest);
    }
  }

  /** The backslashes at the end of s. */
  function Ending(s: string): (k: nat)
    ensures k <= |s| && s[|s| - k..] == Repeat('\\', k) && !EndsInBackslash(s[..|s| - k])
  {
    if EndsInBackslash(s) then
      var k := Ending(s[..|s| - 1]);
      assert s[..|s| - 1][..|s| - 1 - k] == s[..|s| - 1 - k];
      assert s[|s| - 1 - k..] == s[..|s| - 1][|s| - 1 - k..] + ['\\'];
      k + 1
    else 0
  }

  lemma {:induction false} BodyAppends(s: string, n: nat, k: nat)
    ensures Body(s + Repeat('\\', n), k) == Body(s, k) + Repeat('\\', n)
    decreases |s|, n
  {
    var t := s + Repeat('\\', n);
    if s != "" {
      assert t[1..] == s[1..] + Repeat('\\', n);
      BodyAppends(s[1..], n, if s[0] == '\\' then k + 1 else 0);
    } else if 0 < n {
      assert t == Repeat('\\', n) && t[1..] == "" + Repeat('\\', n - 1);
      BodyAppends("", n - 1, k + 1);
      assert "\\" + Repeat('\\', n - 1) == Repeat('\\', n);
    }
  }

  /** An argument that is quoted and ends in backslashes is never read back. */
  lemma ScanBad(a: string, rest: string)
    requires NeedsQuotes(a) && EndsInBackslash(a) && (rest == "" || IsSpace(rest[0]))
    ensures var w := Scan(Protected(a) + rest, false).0; w != "" && w != a
  {
    hide Scan, Slashes, Repeat, NeedsQuotes, EndsInBackslash, Body;
    var k := Ending(a);
    var s := a[..|a| - k];
    assert a == s + Repeat('\\', k);
    BodyAppends(s, k, 0);
    var tail := Repeat('\\', k) + ("\"" + rest);
    var x := Body(s, 0) + tail;
    assert Protected(a) + rest == "\"" + x;
    OpenQuote(x, false);
    ScanBody(s, tail);
    NotAllBackslashes(a, s, k);
    EndingSome(a);
    BadTail(k, rest);
    var w, w1 := Scan(Protected(a) + rest, false).0, Scan(tail, true).0;
    assert w == s + w1;
    assert w[|s|..] == w1 && a[|s|..] == Repeat('\\', k);
  }

  lemma OpenQuote(x: string, quoted: bool)
    ensures Scan("\"" + x, quoted) == Scan(x, !quoted)
  {
  }

  lemma EndingSome(a: string)
    requires EndsInBackslash(a)
    ensures 0 < Ending(a)
  {
  }

  /** Backslashes before a closing quote are not read as they stand. */
  lemma BadTail(k: nat, rest: string)
    requires 0 < k && (rest == "" || IsSpace(rest[0]))
    ensures Scan(Repeat('\\', k) + ("\"" + rest), true).0 != Repeat('\\', k)
  {
    hide Slashes;
    ScanSlashesQuote(k, rest, true);
    OpenQuote(rest, true);
    var w := Scan(Repeat('\\', k) + ("\"" + rest), true).0;
    if k % 2 == 1 {
      assert w[k / 2] == '"';
    } else {
      assert |w| == k / 2;
    }
  }

  lemma NotAllBackslashes(a: string, s: string, k: nat)
    requires NeedsQuotes(a) && a == s + Repeat('\\', k)
    ensures s != ""
  {
  }

  lemma FirstCharStays(a: string, rest: string)
    requires a != ""
    ensures SkipSpaces(Protected(a) + rest) == Protected(a) + rest && Protected(a) != ""
  {
  }

  /** An argument that does not both need quotes and end in a backslash. */
  predicate Readable(a: string) {
    NeedsQuotes(a) ==> !EndsInBackslash(a)
  }

  ghost predicate AllReadable(args: seq<string>) {
    forall i | 0 <= i < |args| :: Readable(args[i])
  }

  lemma ReadableFirst(args: seq<string>)
    requires args != []
    ensures AllReadable(args) <==> Readable(args[0]) && AllReadable(args[1..])
  {
  }

  ghost predicate NoneEmpty(args: seq<string>) {
    forall i | 0 <= i < |args| :: args[i] != ""
  }

  /** Parsing what was printed gives the arguments back exactly if none is empty and none of those that need quotes
      ends in a backslash. */
  lemma RoundTrip(args: seq<string>)
    ensures Words(LineOf(args)) == args <==>
      forall i | 0 <= i < |args| :: args[i] != "" && (NeedsQuotes(args[i]) ==> !EndsInBackslash(args[i]))
  {
    hide NeedsQuotes, EndsInBackslash, Words, Joined;
    if NoneEmpty(args) {
      forall i | 0 <= i < |args| ensures ProtectedAll(args)[i] != "" {
        FirstCharStays(args[i], "");
      }
      AddedIsJoined("", ProtectedAll(args));
      NoWords();
      RoundTripJoined(args);
    } else {
      var i :| 0 <= i < |args| && args[i] == "";
      assert args[i] in args;
      WordsNotEmpty(LineOf(args));
    }
  }

  lemma {:induction false} WordsNotEmpty(s: string)
    ensures forall w | w in Words(s) :: w != ""
    decreases |s|
  {
    hide Scan, SkipSpaces;
    if s != "" {
      var r := Scan(SkipSpaces(s), false).1;
      ScanShrinks(SkipSpaces(s), false);
      WordsNotEmpty(Tail(r));
    }
  }

  lemma {:induction false} RoundTripJoined(args: seq<string>)
    requires NoneEmpty(args)
    ensures Words(Joined(ProtectedAll(args))) == args <==> AllReadable(args)
    decreases |args|
  {
    hide AllReadable, NoneEmpty, Scan, Protected, SkipSpaces, Words, Joined, ProtectedAll;
    if args == [] {
      NoWords();
      assert AllReadable(args) by {
        NoneLeft();
      }
    } else {
      var a, more := args[0], args[1..];
      FirstNotEmpty(args);
      RoundTripJoined(more);
      ReadableFirst(args);
      RoundTripStep(args);
    }
  }

  lemma NoneLeft()
    ensures AllReadable([])
  {
  }

  lemma FirstNotEmpty(args: seq<string>)
    requires NoneEmpty(args) && args != []
    ensures args[0] != "" && NoneEmpty(args[1..])
  {
  }

  /** The first argument is read back if it is readable, and then the rest is read as if it stood alone. */
  lemma RoundTripStep(args: seq<string>)
    requires args != [] && args[0] != ""
    ensures Words(Joined(ProtectedAll(args))) == args <==>
      Readable(args[0]) && Words(Joined(ProtectedAll(args[1..]))) == args[1..]
  {
    hide NeedsQuotes, EndsInBackslash, Scan, Protected, SkipSpaces, Words, Joined, ProtectedAll;
    var a, more := args[0], args[1..];
    var rest := if more == [] then "" else " " + Joined(ProtectedAll(more));
    JoinedMore(args);
    FirstCharStays(a, rest);
    if Readable(a) {
      ScanGood(a, rest);
      FirstWord(Protected(a) + rest);
      assert rest != "" ==> Tail(rest) == Joined(ProtectedAll(more));
      NoWords();
      SameRest(a, Words(Tail(rest)), args);
    } else {
      ScanBad(a, rest);
      FirstWord(Protected(a) + rest);
      assert Words(Protected(a) + rest)[0] != a;
    }
  }

  lemma NoWords()
    ensures Words("") == [] && Words(Joined(ProtectedAll([]))) == []
  {
  }

  lemma JoinedMore(args: seq<string>)
    requires args != []
    ensures var more := args[1..];
      Joined(ProtectedAll(args)) == Protected(args[0]) + (if more == [] then "" else " " + Joined(ProtectedAll(more)))
  {
  }

  lemma FirstWord(line: string)
    requires line != "" && SkipSpaces(line) == line && Scan(line, false).0 != ""
    ensures Words(line) == [Scan(line, false).0] + Words(Tail(Scan(line, false).1))
  {
  }

  lemma SameRest(a: string, ws: seq<string>, args: seq<string>)
    requires args != [] && args[0] == a
    ensures [a] + ws == args <==> ws == args[1..]
  {
  }
}
