/** The event stream (src/events.c; the .events branches of kvbfs_open, kvbfs_read and
    kvbfs_poll_op in src/fuse_ops.c).  A ring of RING_SIZE characters is proved against an
    unbounded log.  events.lock is held for each whole method, so methods are atomic. */
module EventRing {
  import opened Keys

  const RING_SIZE: nat := 262144
  const LINE_MAX: nat := 1024
  const PATH_BUF: nat := 512
  const TWO64: nat := 0x1_0000_0000_0000_0000

  datatype EventType =
    | EvCreate | EvWrite | EvUnlink | EvMkdir | EvRmdir | EvRename | EvSetattr | EvSetxattr | EvRemovexattr | EvLink

  function TypeText(t: EventType): (s: string)
    ensures |s| <= 11 && '\n' !in s && '"' !in s && '\\' !in s
  {
    match t
    case EvCreate => "create" case EvWrite => "write" case EvUnlink => "unlink"
    case EvMkdir => "mkdir" case EvRmdir => "rmdir" case EvRename => "rename"
    case EvSetattr => "setattr" case EvSetxattr => "setxattr"
    case EvRemovexattr => "removexattr" case EvLink => "link"
  }

  // ---- one line ----

  function EscapeChar(c: char): string { if c == '"' || c == '\\' then ['\\', c] else [c] }

  function EscapeText(s: string): string {
    if s == "" then "" else EscapeText(s[..|s| - 1]) + EscapeChar(s[|s| - 1])
  }

  lemma {:induction false} EscapeNewlines(s: string)
    ensures '\n' in EscapeText(s) <==> '\n' in s
  {
    if s != "" {
      EscapeNewlines(s[..|s| - 1]);
      assert s == s[..|s| - 1] + [s[|s| - 1]];
    }
  }

  /** The escaping loop: stops before its buffer could overflow. */
  method Escape(path: string) returns (out: string, ghost n: nat)
    ensures n <= |path| && out == EscapeText(path[..n]) && |out| <= PATH_BUF - 1
    ensures n < |path| ==> |out| >= PATH_BUF - 2
  {
    out := "";
    var i := 0;
    while i < |path| && |out| < PATH_BUF - 2
      invariant i <= |path| && out == EscapeText(path[..i]) && |out| <= PATH_BUF - 1
    {
      assert path[..i + 1][..i] == path[..i];
      if path[i] == '"' || path[i] == '\\' {
        out := out + ['\\'];
      }
      out := out + [path[i]];
      i := i + 1;
    }
    n := i;
  }

  function Line(seqno: nat, t: EventType, ino: nat, path: string, ts: nat): string {
    "{\"seq\":" + Dec(seqno) + ",\"type\":\"" + TypeText(t) + "\",\"ino\":" + Dec(ino) +
    ",\"path\":\"" + path + "\",\"ts\":" + Dec(ts) + "}\n"
  }

  // ---- reading a line back ----

  datatype Event = Event(seqno: nat, t: EventType, ino: nat, path: string, ts: nat)

  datatype Option<T> = None | Some(value: T)

  function Skip(s: string, p: string): Option<string> {
    if p <= s then Some(s[|p|..]) else None
  }

  function DigitCount(s: string): (n: nat)
    ensures n <= |s| && AllDigits(s[..n])
  {
    if s == "" || !IsDigit(s[0]) then 0
    else
      var n := DigitCount(s[1..]);
      assert s[..n + 1] == [s[0]] + s[1..][..n];
      n + 1
  }

  /** A number after its field name, and what follows it. */
  function ReadNumber(s: string, field: string): Option<(nat, string)> {
    match Skip(s, field)
    case None => None
    case Some(t) => if DigitCount(t) == 0 then None else Some((ParseDec(t[..DigitCount(t)]), t[DigitCount(t)..]))
  }

  /** The text up to the closing quote, escapes undone, and what follows the quote. */
  function Unquote(s: string): Option<(string, string)>
    decreases |s|
  {
    if s == "" then None
    else if s[0] == '"' then Some(("", s[1..]))
    else
      var k := if s[0] == '\\' && |s| > 1 then 1 else 0;
      match Unquote(s[k + 1..])
      case None => None
      case Some((text, rest)) => Some(([s[k]] + text, rest))
  }

  function ReadText(s: string, field: string): Option<(string, string)> {
    match Skip(s, field)
    case None => None
    case Some(t) => Unquote(t)
  }

  function TypeNamed(s: string): Option<EventType> {
    if s == "create" then Some(EvCreate) else if s == "write" then Some(EvWrite)
    else if s == "unlink" then Some(EvUnlink) else if s == "mkdir" then Some(EvMkdir)
    else if s == "rmdir" then Some(EvRmdir) else if s == "rename" then Some(EvRename)
    else if s == "setattr" then Some(EvSetattr) else if s == "setxattr" then Some(EvSetxattr)
    else if s == "removexattr" then Some(EvRemovexattr) else if s == "link" then Some(EvLink)
    else None
  }

  /** A reader of one JSON line, field by field. */
  function ReadLine(line: string): Option<Event> {
    match ReadNumber(line, "{\"seq\":")
    case None => None
    case Some((seqno, s1)) =>
      match ReadText(s1, ",\"type\":\"")
      case None => None
      case Some((name, s2)) =>
        match ReadNumber(s2, ",\"ino\":")
        case None => None
        case Some((ino, s3)) =>
          match ReadText(s3, ",\"path\":\"")
          case None => None
          case Some((path, s4)) =>
            match ReadNumber(s4, ",\"ts\":")
            case None => None
            case Some((ts, s5)) =>
              if s5 == "}\n" && TypeNamed(name).Some? then Some(Event(seqno, TypeNamed(name).value, ino, path, ts))
              else None
  }

  lemma SkipPrefix(p: string, rest: string)
    ensures Skip(p + rest, p) == Some(rest)
  {
  }

  lemma {:induction false} DigitsStop(d: string, rest: string)
    requires AllDigits(d) && rest != "" && !IsDigit(rest[0])
    ensures DigitCount(d + rest) == |d|
  {
    if d != "" {
      assert (d + rest)[1..] == d[1..] + rest;
      DigitsStop(d[1..], rest);
    } else {
      assert d + rest == rest;
    }
  }

  lemma NumberRead(field: string, n: nat, rest: string)
    requires rest != "" && !IsDigit(rest[0])
    ensures ReadNumber(field + (Dec(n) + rest), field) == Some((n, rest))
  {
    hide Dec, ParseDec, DigitCount, Skip;
    SkipPrefix(field, Dec(n) + rest);
    DigitsStop(Dec(n), rest);
    ParseDecInvertsDec(n);
    assert (Dec(n) + rest)[..|Dec(n)|] == Dec(n) && (Dec(n) + rest)[|Dec(n)|..] == rest;
  }

  lemma {:induction false} EscapeCons(c: char, s: string)
    ensures EscapeText([c] + s) == EscapeChar(c) + EscapeText(s)
  {
    var t := [c] + s;
    if s == "" {
      assert t[..0] == "" && EscapeText(t) == EscapeText("") + EscapeChar(c);
    } else {
      assert t[..|t| - 1] == [c] + s[..|s| - 1];
      EscapeCons(c, s[..|s| - 1]);
    }
  }

  lemma {:induction false} UnquoteInverts(p: string, rest: string)
    ensures Unquote(EscapeText(p) + ("\"" + rest)) == Some((p, rest))
  {
    hide Unquote, EscapeText, EscapeChar;
    var quoted := "\"" + rest;
    if p == "" {
      UnquoteEnd(rest);
      assert EscapeText(p) + quoted == quoted by { assert EscapeText("") == "" by { EscapeNothing(); } }
    } else {
      assert p == [p[0]] + p[1..];
      EscapeCons(p[0], p[1..]);
      UnquoteInverts(p[1..], rest);
      UnquoteChar(p[0], EscapeText(p[1..]) + quoted, p[1..], rest);
      assert EscapeText(p) + quoted == EscapeChar(p[0]) + (EscapeText(p[1..]) + quoted);
    }
  }

  lemma EscapeNothing()
    ensures EscapeText("") == ""
  {
  }

  lemma UnquoteEnd(rest: string)
    ensures Unquote("\"" + rest) == Some(("", rest))
  {
    assert ("\"" + rest)[1..] == rest;
  }

  lemma UnquoteChar(c: char, tail: string, text: string, rest: string)
    requires Unquote(tail) == Some((text, rest))
    ensures Unquote(EscapeChar(c) + tail) == Some(([c] + text, rest))
  {
    var s := EscapeChar(c) + tail;
    assert s[|EscapeChar(c)|..] == tail;
  }

  lemma TextRead(field: string, p: string, rest: string)
    ensures ReadText(field + (EscapeText(p) + ("\"" + rest)), field) == Some((p, rest))
  {
    hide Skip, EscapeText, Unquote;
    SkipPrefix(field, EscapeText(p) + ("\"" + rest));
    UnquoteInverts(p, rest);
  }

  lemma TypeRead(t: EventType)
    ensures TypeNamed(TypeText(t)) == Some(t) && EscapeText(TypeText(t)) == TypeText(t)
  {
    assert TypeNamed(TypeText(t)) == Some(t) by {
      hide EscapeText;
      TypeNames(t);
    }
    hide TypeText;
    PlainEscape(TypeText(t));
  }

  lemma TypeNames(t: EventType)
    ensures TypeNamed(TypeText(t)) == Some(t)
  {
    match t
    case EvCreate => assert TypeText(t)[0] == 'c';
    case EvWrite => assert TypeText(t)[0] == 'w';
    case EvUnlink => assert TypeText(t)[0] == 'u';
    case EvMkdir => assert TypeText(t)[0] == 'm';
    case EvRmdir => assert TypeText(t)[0] == 'r';
    case EvRename => assert TypeText(t)[0] == 'r';
    case EvSetattr => assert TypeText(t)[0] == 's';
    case EvSetxattr => assert TypeText(t)[0] == 's';
    case EvRemovexattr => assert TypeText(t)[0] == 'r';
    case EvLink => assert TypeText(t)[0] == 'l';
  }

  lemma {:induction false} PlainEscape(s: string)
    requires '"' !in s && '\\' !in s
    ensures EscapeText(s) == s
  {
    if s != "" {
      PlainEscape(s[..|s| - 1]);
      assert s == s[..|s| - 1] + [s[|s| - 1]];
    }
  }

  /** Every line can be read back: number, type, inode, path and time are where their field
      names say, and escaping loses nothing. */
  lemma ReadLineInverts(v: Event)
    ensures ReadLine(Line(v.seqno, v.t, v.ino, EscapeText(v.path), v.ts)) == Some(v)
  {
    hide Dec, ReadNumber, ReadText, EscapeText, TypeText, TypeNamed;
    var s4 := ",\"ts\":" + (Dec(v.ts) + "}\n");
    var s3 := ",\"path\":\"" + (EscapeText(v.path) + ("\"" + s4));
    var s2 := ",\"ino\":" + (Dec(v.ino) + s3);
    var s1 := ",\"type\":\"" + (EscapeText(TypeText(v.t)) + ("\"" + s2));
    var line := "{\"seq\":" + (Dec(v.seqno) + s1);
    TypeRead(v.t);
    LineParts(v, s1, s2, s3, s4);
    NumberRead("{\"seq\":", v.seqno, s1);
    TextRead(",\"type\":\"", TypeText(v.t), s2);
    NumberRead(",\"ino\":", v.ino, s3);
    TextRead(",\"path\":\"", v.path, s4);
    NumberRead(",\"ts\":", v.ts, "}\n");
  }

  lemma LineParts(v: Event, s1: string, s2: string, s3: string, s4: string)
    requires s4 == ",\"ts\":" + (Dec(v.ts) + "}\n")
    requires s3 == ",\"path\":\"" + (EscapeText(v.path) + ("\"" + s4))
    requires s2 == ",\"ino\":" + (Dec(v.ino) + s3)
    requires s1 == ",\"type\":\"" + (TypeText(v.t) + ("\"" + s2))
    ensures Line(v.seqno, v.t, v.ino, EscapeText(v.path), v.ts) == "{\"seq\":" + (Dec(v.seqno) + s1)
  {
    hide Dec, EscapeText, TypeText;
  }

  /** With 64-bit numbers and a path that fits its buffer, a line always fits its own, so no
      event is ever dropped after its number has been taken. */
  lemma LineFits(seqno: nat, t: EventType, ino: nat, path: string, ts: nat)
    requires seqno < TWO64 && ino < TWO64 && ts < TWO64 && |path| < PATH_BUF
    ensures 0 < |Line(seqno, t, ino, path, ts)| < LINE_MAX
  {
    DecLength64(seqno);
    DecLength64(ino);
    DecLength64(ts);
  }

  /** A line ends with a newline and has no other exactly when the path has none. */
  predicate SingleNewline(line: string) { |line| > 0 && line[|line| - 1] == '\n' && '\n' !in line[..|line| - 1] }

  lemma LineNewlines(seqno: nat, t: EventType, ino: nat, path: string, ts: nat)
    ensures SingleNewline(Line(seqno, t, ino, path, ts)) <==> '\n' !in path
  {
    hide Dec;
    var a := "{\"seq\":" + Dec(seqno) + ",\"type\":\"" + TypeText(t) + "\",\"ino\":" + Dec(ino) + ",\"path\":\"";
    var b := "\",\"ts\":" + Dec(ts) + "}";
    var line := Line(seqno, t, ino, path, ts);
    assert line == a + path + b + "\n";
    assert line[..|line| - 1] == a + path + b;
    NoNewline(Dec(seqno));
    NoNewline(Dec(ino));
    NoNewline(Dec(ts));
    assert '\n' !in a && '\n' !in b;
  }

  lemma NoNewline(s: string)
    requires AllDigits(s)
    ensures '\n' !in s
  {
  }

  // ---- the log ----

  function Join(lines: seq<string>): string {
    if lines == [] then "" else Join(lines[..|lines| - 1]) + lines[|lines| - 1]
  }

  lemma JoinSnoc(lines: seq<string>, line: string)
    ensures Join(lines + [line]) == Join(lines) + line
  {
    assert (lines + [line])[..|lines|] == lines;
  }

  lemma {:induction false} JoinPrefix(lines: seq<string>, k: nat)
    requires k <= |lines|
    ensures Join(lines[..k]) <= Join(lines)
  {
    if k == |lines| {
      assert lines[..k] == lines;
    } else {
      JoinPrefix(lines[..|lines| - 1], k);
      assert lines[..|lines| - 1][..k] == lines[..k];
    }
  }

  /** pos is where some event starts, or the end of the log. */
  predicate Boundary(lines: seq<string>, pos: nat) { exists k :: 0 <= k <= |lines| && StartOf(lines, k) == pos }

  function StartOf(lines: seq<string>, k: nat): nat
    requires k <= |lines|
  {
    |Join(lines[..k])|
  }

  predicate AfterNewline(log: string, pos: nat) { pos == 0 || (pos <= |log| && log[pos - 1] == '\n') }

  /** Positions after a newline are event boundaries exactly when every event has only its
      final newline, that is (LineNewlines), when no name contains one. */
  lemma LineStartsAreEvents(lines: seq<string>)
    requires forall i :: 0 <= i < |lines| ==> |lines[i]| > 0 && lines[i][|lines[i]| - 1] == '\n'
    ensures (forall pos: nat :: AfterNewline(Join(lines), pos) ==> Boundary(lines, pos))
      <==> (forall i :: 0 <= i < |lines| ==> SingleNewline(lines[i]))
  {
    if forall i :: 0 <= i < |lines| ==> SingleNewline(lines[i]) {
      forall pos: nat | AfterNewline(Join(lines), pos) ensures Boundary(lines, pos) {
        NewlineEndsEvent(lines, pos);
      }
    } else {
      var i :| 0 <= i < |lines| && !SingleNewline(lines[i]);
      InnerNewline(lines, i);
    }
  }

  lemma {:induction false} NewlineEndsEvent(lines: seq<string>, pos: nat)
    requires forall i :: 0 <= i < |lines| ==> SingleNewline(lines[i])
    requires AfterNewline(Join(lines), pos)
    ensures Boundary(lines, pos)
    decreases |lines|
  {
    if pos == 0 {
      assert lines[..0] == [] && StartOf(lines, 0) == 0;
    } else {
      var init, last := lines[..|lines| - 1], lines[|lines| - 1];
      var log := Join(lines);
      assert lines[..|lines|] == lines;
      if pos <= |Join(init)| {
        assert log[pos - 1] == Join(init)[pos - 1];
        NewlineEndsEvent(init, pos);
        var k :| 0 <= k <= |init| && StartOf(init, k) == pos;
        assert init[..k] == lines[..k];
        assert StartOf(lines, k) == pos;
      } else {
        var j := pos - 1 - |Join(init)|;
        assert log[pos - 1] == last[j];
        assert forall m :: 0 <= m < |last| - 1 ==> last[..|last| - 1][m] == last[m];
        assert StartOf(lines, |lines|) == pos;
      }
    }
  }

  lemma InnerNewline(lines: seq<string>, i: nat)
    requires forall k :: 0 <= k < |lines| ==> |lines[k]| > 0
    requires i < |lines| && lines[i][|lines[i]| - 1] == '\n' && !SingleNewline(lines[i])
    ensures exists pos: nat :: AfterNewline(Join(lines), pos) && !Boundary(lines, pos)
  {
    var line := lines[i];
    var j :| 0 <= j < |line| - 1 && line[..|line| - 1][j] == '\n';
    var pos := StartOf(lines, i) + j + 1;
    assert lines[..i + 1] == lines[..i] + [line];
    JoinSnoc(lines[..i], line);
    JoinPrefix(lines, i + 1);
    assert Join(lines)[pos - 1] == Join(lines[..i + 1])[pos - 1] == line[j] == '\n';
    forall k | 0 <= k <= |lines| ensures StartOf(lines, k) != pos {
      if k <= i {
        StartsMonotone(lines, k, i);
      } else {
        StartsMonotone(lines, i + 1, k);
      }
    }
    assert AfterNewline(Join(lines), pos) && !Boundary(lines, pos);
  }

  lemma StartsMonotone(lines: seq<string>, k: nat, m: nat)
    requires k <= m <= |lines|
    ensures StartOf(lines, k) <= StartOf(lines, m)
  {
    JoinPrefix(lines[..m], k);
    assert lines[..m][..k] == lines[..k];
  }

  // ---- the ring ----

  lemma DistinctSlots(i: nat, j: nat)
    requires i < j < i + RING_SIZE
    ensures i % RING_SIZE != j % RING_SIZE
  {
  }

  datatype PollHandle = NoHandle | Handle(id: nat)

  /** The log is the events' lines, numbered 1, 2, 3, ... as a 64-bit counter does. */
  ghost predicate LinesOk(log: string, lines: seq<string>, seqno: nat) {
    && log == Join(lines) && seqno == |lines| % TWO64
    && (forall i :: 0 <= i < |lines| ==> LineOk(lines[i], (i + 1) % TWO64))
    && (log == "" || log[|log| - 1] == '\n')
  }

  predicate LineOk(line: string, n: nat) {
    0 < |line| < LINE_MAX && line[|line| - 1] == '\n' && Numbered(line, n)
  }

  /** Every poll handle handed over was destroyed once, or is the one waiting. */
  ghost predicate HandlesOk(ph: PollHandle, given: multiset<nat>, destroyed: multiset<nat>) {
    given == destroyed + (if ph.Handle? then multiset{ph.id} else multiset{})
  }

  /** A handle handed over can be destroyed at once, or take the place of the waiting one. */
  lemma HandleGiven(ph: PollHandle, given: multiset<nat>, destroyed: multiset<nat>, id: nat)
    requires HandlesOk(ph, given, destroyed)
    ensures HandlesOk(ph, given + multiset{id}, destroyed + multiset{id})
    ensures ph.Handle? ==> HandlesOk(Handle(id), given + multiset{id}, destroyed + multiset{ph.id})
    ensures ph.NoHandle? ==> HandlesOk(Handle(id), given + multiset{id}, destroyed)
  {
  }

  lemma LineEnds(line: string, n: nat)
    requires LineOk(line, n)
    ensures |line| > 0 && line[|line| - 1] == '\n'
  {
  }

  lemma LinesGrow(log: string, lines: seq<string>, seqno: nat, line: string)
    requires LinesOk(log, lines, seqno) && LineOk(line, (seqno + 1) % TWO64)
    ensures LinesOk(log + line, lines + [line], (seqno + 1) % TWO64)
  {
    LineEnds(line, (seqno + 1) % TWO64);
    hide LineOk, Join;
    JoinSnoc(lines, line);
    NextCount(|lines|);
  }

  lemma NextCount(n: nat)
    ensures (n % TWO64 + 1) % TWO64 == (n + 1) % TWO64
  {
  }

  /** tail lies just after the first newline at or after lo. */
  ghost predicate FirstLineFrom(log: string, lo: int, tail: nat) {
    0 <= lo < tail <= |log| && log[tail - 1] == '\n' && forall i :: lo <= i < tail - 1 ==> log[i] != '\n'
  }

  class Events {
    const ring: array<char>
    var head: nat
    var tail: nat
    var seqno: nat
    var ph: PollHandle
    ghost var log: string
    ghost var lines: seq<string>
    ghost var given: multiset<nat>       // poll handles handed over
    ghost var destroyed: multiset<nat>   // poll handles destroyed

    /** The ring holds log[lo..hi], each character in its slot. */
    ghost predicate Holds(lo: nat, hi: nat)
      requires ring.Length == RING_SIZE && hi <= |log|
      reads `log, ring
    {
      forall i :: lo <= i < hi ==> ring[i % RING_SIZE] == log[i]
    }

    ghost predicate Valid()
      reads this, ring
    {
      && ring.Length == RING_SIZE
      && head == |log| && tail <= head <= tail + RING_SIZE
      && Holds(tail, head)
      && AfterNewline(log, tail)
      && LinesOk(log, lines, seqno)
      && HandlesOk(ph, given, destroyed)
    }

    /** events_init */
    constructor ()
      ensures Valid() && fresh(ring)
      ensures log == "" && lines == [] && head == tail == 0 && given == destroyed == multiset{}
    {
      ring := new char[RING_SIZE](_ => '\0');
      head, tail, seqno, ph := 0, 0, 0, NoHandle;
      log, lines, given, destroyed := "", [], multiset{}, multiset{};
    }

    /** events_emit: numbers the event, appends its line to the log, and drops from the
        front of the ring as many whole lines as the ring cannot hold any more.  The ghost
        result is how much of the path fitted the escape buffer. */
    method Emit(t: EventType, ino: nat, path: string, ts: nat) returns (ghost n: nat)
      requires Valid() && ino < TWO64 && ts < TWO64
      modifies this, ring
      ensures Valid()
      ensures n <= |path| && |EscapeText(path[..n])| <= PATH_BUF - 1
      ensures n < |path| ==> |EscapeText(path[..n])| >= PATH_BUF - 2
      ensures seqno == (old(seqno) + 1) % TWO64
      ensures lines == old(lines) + [Line(seqno, t, ino, EscapeText(path[..n]), ts)]
      ensures log == old(log) + lines[|lines| - 1]
      ensures ReadLine(lines[|lines| - 1]) == Some(Event(seqno, t, ino, path[..n], ts))
      ensures old(tail) <= tail <= |old(log)|
      ensures head <= old(tail) + RING_SIZE ==> tail == old(tail)
      ensures head > old(tail) + RING_SIZE ==> FirstLineFrom(log, head - RING_SIZE, tail)
      ensures ph == NoHandle && given == old(given)
    {
      hide Line, LinesOk, HandlesOk, Numbered, EscapeText, FirstLineFrom, ReadLine;
      var escaped: string;
      escaped, n := Escape(path);
      seqno := (seqno + 1) % TWO64;
      var line := Line(seqno, t, ino, escaped, ts);
      LineFits(seqno, t, ino, escaped, ts);
      NumberedLine(seqno, t, ino, escaped, ts);
      ReadLineInverts(Event(seqno, t, ino, path[..n], ts));
      if |line| == 0 || |line| >= LINE_MAX {
        assert false;
        return;
      }
      LinesGrow(log, lines, old(seqno), line);
      LogEnds(log, lines, old(seqno));
      Append(line);
      lines := lines + [line];
      Notify();
    }

    method Append(line: string)
      requires ring.Length == RING_SIZE && head == |log| && tail <= head <= tail + RING_SIZE
      requires Holds(tail, head) && AfterNewline(log, tail)
      requires 0 < |line| < LINE_MAX && (log == "" || log[|log| - 1] == '\n')
      modifies this`head, this`tail, this`log, ring
      ensures log == old(log) + line && head == |log| && tail <= head <= tail + RING_SIZE
      ensures Holds(tail, head) && AfterNewline(log, tail)
      ensures old(tail) <= tail <= |old(log)|
      ensures head <= old(tail) + RING_SIZE ==> tail == old(tail)
      ensures head > old(tail) + RING_SIZE ==> FirstLineFrom(log, head - RING_SIZE, tail)
    {
      ghost var start := head;
      WriteLine(line);
      if head - tail > RING_SIZE {
        assert log[start - 1] == old(log)[start - 1];
        AdvanceTail(start);
      } else {
        assert tail > 0 ==> log[tail - 1] == old(log)[tail - 1];
      }
    }

    /** Wakes the waiting poll, once. */
    method Notify()
      requires HandlesOk(ph, given, destroyed)
      modifies this`ph, this`destroyed
      ensures HandlesOk(ph, given, destroyed) && ph == NoHandle
    {
      if ph.Handle? {
        destroyed := destroyed + multiset{ph.id};
        ph := NoHandle;
      }
    }

    /** The character loop: overwrites the oldest characters. */
    method WriteLine(line: string)
      requires ring.Length == RING_SIZE && head == |log| && tail <= head <= tail + RING_SIZE
      requires Holds(tail, head) && |line| < LINE_MAX
      modifies this`head, this`log, ring
      ensures log == old(log) + line && head == |log|
      ensures Holds(if head > tail + RING_SIZE then head - RING_SIZE else tail, head)
    {
      var i := 0;
      while i < |line|
        invariant i <= |line| && log == old(log) + line[..i] && head == |log|
        invariant Holds(if head > tail + RING_SIZE then head - RING_SIZE else tail, head)
      {
        ghost var lo := if head + 1 > tail + RING_SIZE then head + 1 - RING_SIZE else tail;
        forall j | lo <= j < head ensures j % RING_SIZE != head % RING_SIZE {
          DistinctSlots(j, head);
        }
        ring[head % RING_SIZE] := line[i];
        log := log + [line[i]];
        head := head + 1;
        i := i + 1;
      }
    }

    /** Moves the tail behind the first newline still in the ring.  The newest line, which
        starts at start, is never dropped: the newline before it is in the ring. */
    method AdvanceTail(ghost start: nat)
      requires ring.Length == RING_SIZE && head == |log| && head > tail + RING_SIZE
      requires Holds(head - RING_SIZE, head)
      requires 0 < start <= head < start + LINE_MAX && log[start - 1] == '\n'
      modifies this`tail
      ensures tail <= start && FirstLineFrom(log, head - RING_SIZE, tail)
    {
      tail := head - RING_SIZE;
      while tail < head && ring[tail % RING_SIZE] != '\n'
        invariant head - RING_SIZE <= tail <= start - 1
        invariant forall i :: head - RING_SIZE <= i < tail ==> log[i] != '\n'
        decreases head - tail
      {
        tail := tail + 1;
      }
      if tail < head {
        tail := tail + 1;
      }
    }

    /** kvbfs_poll_op on .events: a reader that is behind is ready at once; otherwise the
        handle is kept until the next event, replacing an older one. */
    method Poll(readPos: nat, handle: PollHandle) returns (ready: bool)
      requires Valid()
      modifies this`ph, this`given, this`destroyed
      ensures Valid() && ready == (readPos < head)
      ensures given == old(given) + (if handle.Handle? then multiset{handle.id} else multiset{})
      ensures ph == if !ready && handle.Handle? then handle else old(ph)
    {
      hide LinesOk, Holds, AfterNewline, HandlesOk;
      ready := readPos < head;
      if handle.Handle? {
        HandleGiven(ph, given, destroyed, handle.id);
        given := given + multiset{handle.id};
        if ready {
          destroyed := destroyed + multiset{handle.id};
        } else {
          if ph.Handle? {
            destroyed := destroyed + multiset{ph.id};
          }
          ph := handle;
        }
      }
    }

    /** events_destroy: no handle is left over. */
    method Destroy()
      requires Valid()
      modifies this`ph, this`destroyed
      ensures Valid() && given == destroyed
    {
      if ph.Handle? {
        destroyed := destroyed + multiset{ph.id};
        ph := NoHandle;
      }
    }
  }

  lemma LogEnds(log: string, lines: seq<string>, seqno: nat)
    requires LinesOk(log, lines, seqno)
    ensures log == "" || log[|log| - 1] == '\n'
  {
  }

  /** The line carries number n. */
  predicate Numbered(line: string, n: nat) { "{\"seq\":" + Dec(n) + "," <= line }

  lemma NumberedLine(n: nat, t: EventType, ino: nat, path: string, ts: nat)
    ensures Numbered(Line(n, t, ino, path, ts), n)
    ensures var line := Line(n, t, ino, path, ts); |line| > 0 && line[|line| - 1] == '\n'
  {
    hide Dec, TypeText;
    var line := Line(n, t, ino, path, ts);
    var rest := "\"type\":\"" + TypeText(t) + "\",\"ino\":" + Dec(ino) + ",\"path\":\"" + path + "\",\"ts\":" + Dec(ts) + "}\n";
    assert line == "{\"seq\":" + Dec(n) + "," + rest;
  }

  // ---- readers ----

  /** struct events_fh, with the text read since the last gap. */
  class Reader {
    var readPos: nat
    ghost var since: nat    // where the unbroken part of what was read starts
    ghost var got: string   // what was read from there on

    ghost predicate Valid(e: Events)
      reads this, e
    {
      since <= readPos <= |e.log| && got == e.log[since..readPos]
    }

    /** kvbfs_open of .events: only what comes later is read. */
    constructor Open(e: Events)
      requires e.Valid()
      ensures Valid(e) && since == readPos == |e.log| && got == ""
    {
      readPos, since, got := e.head, e.head, "";
      new;
      assert e.log[since..readPos] == "";
    }

    /** kvbfs_read of .events: the log from where the reader stopped; a reader the ring has
        overtaken resumes at the oldest line start. */
    method Read(e: Events, size: nat) returns (out: string)
      requires e.Valid() && Valid(e)
      modifies this
      ensures Valid(e)
      ensures var from := if old(readPos) < e.tail then e.tail else old(readPos);
        && readPos == (if from + size < |e.log| then from + size else |e.log|)
        && out == e.log[from..readPos]
      ensures e.tail <= old(readPos) ==> since == old(since) && got == old(got) + out
      ensures old(readPos) < e.tail ==> since == e.tail && AfterNewline(e.log, since) && got == out
    {
      hide LinesOk, HandlesOk;
      if readPos < e.tail {
        readPos := e.tail;
        since, got := e.tail, "";
      }
      var avail := e.head - readPos;
      var n := if size > avail then avail else size;
      out := CopyOut(e, readPos, n);
      got := got + out;
      readPos := readPos + n;
    }

    method CopyOut(e: Events, from: nat, n: nat) returns (out: string)
      requires e.ring.Length == RING_SIZE && from + n <= e.head == |e.log| && e.Holds(from, e.head)
      ensures out == e.log[from..from + n]
    {
      out := "";
      var i := 0;
      while i < n
        invariant i <= n && out == e.log[from..from + i]
      {
        out := out + [e.ring[(from + i) % RING_SIZE]];
        i := i + 1;
      }
    }
  }

  /** Emitting never disturbs a reader: what it has read stays a part of the log. */
  lemma ReaderKept(log: string, log': string, since: nat, readPos: nat, got: string)
    requires since <= readPos <= |log| && got == log[since..readPos] && log <= log'
    ensures got == log'[since..readPos]
  {
  }

  lemma LineStartKept(log: string, log': string, pos: nat)
    requires AfterNewline(log, pos) && pos <= |log| && log <= log'
    ensures AfterNewline(log', pos)
  {
    assert pos > 0 ==> log[pos - 1] == log'[pos - 1];
  }

  datatype Action = EmitEvent(t: EventType, ino: nat, path: string, ts: nat) | ReadSome(size: nat)

  lemma {:induction false} NewlineSoon(lines: seq<string>, lo: nat)
    requires forall i :: 0 <= i < |lines| ==> 0 < |lines[i]| < LINE_MAX && lines[i][|lines[i]| - 1] == '\n'
    requires lo < |Join(lines)|
    ensures exists i :: lo <= i < lo + LINE_MAX && i < |Join(lines)| && Join(lines)[i] == '\n'
  {
    var front, last := lines[..|lines| - 1], lines[|lines| - 1];
    JoinSnoc(front, last);
    assert lines == front + [last];
    if lo < |Join(front)| {
      NewlineSoon(front, lo);
      var i :| lo <= i < lo + LINE_MAX && i < |Join(front)| && Join(front)[i] == '\n';
      assert Join(lines)[i] == '\n';
    } else {
      assert Join(lines)[|Join(lines)| - 1] == '\n';
    }
  }

  /** A tail that had to move lies less than a line behind the overwritten part. */
  lemma TailNear(log: string, lines: seq<string>, seqno: nat, lo: nat, tail: nat)
    requires LinesOk(log, lines, seqno) && FirstLineFrom(log, lo, tail)
    ensures tail <= lo + LINE_MAX
  {
    NewlineSoon(lines, lo);
    var i :| lo <= i < lo + LINE_MAX && i < |Join(lines)| && Join(lines)[i] == '\n';
    assert log[i] == '\n';
  }

  /** Over any run of events and reads, what a reader has got is exactly the log from where it
      opened, or, once a read found that the ring had overtaken it, from the line start it
      resumed at.  A reader is never overtaken while the log has grown by less than the ring,
      up to one line. */
  method Follow(e: Events, run: seq<Action>) returns (r: Reader, ghost overtaken: bool)
    requires e.Valid()
    requires forall i :: 0 <= i < |run| && run[i].EmitEvent? ==> run[i].ino < TWO64 && run[i].ts < TWO64
    modifies e, e.ring
    ensures e.Valid() && fresh(r) && old(e.log) <= e.log
    ensures r.since <= r.readPos <= |e.log| && r.got == e.log[r.since..r.readPos]
    ensures !overtaken ==> r.since == |old(e.log)|
    ensures overtaken ==> r.since > |old(e.log)| && AfterNewline(e.log, r.since)
    ensures |e.log| + LINE_MAX <= |old(e.log)| + RING_SIZE ==> !overtaken
  {
    hide Line, LinesOk, HandlesOk, AfterNewline, FirstLineFrom, EscapeText;
    r := new Reader.Open(e);
    overtaken := false;
    ghost var log0 := e.log;
    for i := 0 to |run|
      invariant e.Valid() && fresh(r) && log0 <= e.log && r.Valid(e)
      invariant e.tail <= |log0| || e.tail + RING_SIZE <= |e.log| + LINE_MAX
      invariant if overtaken then r.since > |log0| && AfterNewline(e.log, r.since) else r.since == |log0|
      invariant overtaken ==> |e.log| + LINE_MAX > |log0| + RING_SIZE
    {
      match run[i]
      case EmitEvent(t, ino, path, ts) =>
        ghost var log, tail := e.log, e.tail;
        ghost var _ := e.Emit(t, ino, path, ts);
        ReaderKept(log, e.log, r.since, r.readPos, r.got);
        if overtaken { LineStartKept(log, e.log, r.since); }
        if e.head > tail + RING_SIZE { TailNear(e.log, e.lines, e.seqno, e.head - RING_SIZE, e.tail); }
      case ReadSome(size) =>
        overtaken := overtaken || r.readPos < e.tail;
        var _ := r.Read(e, size);
    }
  }
}
