/** Conversation files (src/llm.c:126-231, 459-583, 746-758): the parser, the printer, the test
    for an unanswered message, the rewrite that compresses old messages, and the answer that is
    appended.  A C string ends at its first NUL, so the parser works on CStr of the file. */
module Conversation {
  import K = Keys

  datatype Role = User | Assistant

  datatype Msg = Msg(role: Role, content: string)

  function RolePrefix(r: Role): string { if r.User? then "User:" else "Assistant:" }

  predicate StartsRole(t: string) { "User:" <= t || "Assistant:" <= t }

  function RoleOf(t: string): Role
    requires StartsRole(t)
  {
    if "User:" <= t then User else Assistant
  }

  predicate IsBreak(c: char) { c == '\n' || c == '\r' }

  predicate IsTrimmed(c: char) { c == '\n' || c == '\r' || c == ' ' }

  const NUL: char := '\0'

  function CStr(s: string): (r: string)
    ensures r <= s && NUL !in r
    ensures |r| < |s| ==> s[|r|] == NUL
    ensures NUL !in s ==> r == s
  {
    if s == "" || s[0] == NUL then "" else [s[0]] + CStr(s[1..])
  }

  lemma Regroup(a: string, b: string, c: string)
    ensures a + b + c == a + (b + c)
  {
  }

  // ---- the meaning of a text ----

  function DropSpaces(s: string): (r: string)
    ensures |r| <= |s|
  {
    if s != "" && s[0] == ' ' then DropSpaces(s[1..]) else s
  }

  lemma {:induction false} DropSpacesSuffix(s: string)
    ensures DropSpaces(s) == s[|s| - |DropSpaces(s)|..]
    ensures DropSpaces(s) == "" || DropSpaces(s)[0] != ' '
  {
    if s != "" && s[0] == ' ' { DropSpacesSuffix(s[1..]); }
  }

  /** Where a message that starts at the beginning of s ends: before the first line break
      that is followed by a role, or at the end. */
  function MsgEnd(s: string): (e: nat)
    ensures e <= |s|
    ensures e < |s| ==> s[e] == '\n' && StartsRole(s[e + 1..])
  {
    if s == "" then 0
    else if s[0] == '\n' && StartsRole(s[1..]) then 0
    else
      var e := MsgEnd(s[1..]);
      assert e < |s[1..]| ==> s[1..][e + 1..] == s[e + 2..];
      1 + e
  }

  function TrimEnd(s: string): (r: string)
    ensures r <= s
    ensures r == "" || !IsTrimmed(r[|r| - 1])
  {
    if s != "" && IsTrimmed(s[|s| - 1]) then TrimEnd(s[..|s| - 1]) else s
  }

  function LineEnd(s: string): (k: nat)
    ensures k <= |s| && '\n' !in s[..k]
    ensures k < |s| ==> s[k] == '\n'
  {
    if s == "" || s[0] == '\n' then 0
    else
      var k := LineEnd(s[1..]);
      assert s[..k + 1] == [s[0]] + s[1..][..k];
      1 + k
  }

  function Body(s: string): (b: string)
    requires StartsRole(s)
    ensures |b| < |s|
  {
    DropSpaces(s[|RolePrefix(RoleOf(s))|..])
  }

  lemma BodySuffix(s: string)
    requires StartsRole(s)
    ensures Body(s) == s[|s| - |Body(s)|..]
    ensures Body(s) == "" || Body(s)[0] != ' '
  {
    hide DropSpaces;
    DropSpacesSuffix(s[|RolePrefix(RoleOf(s))|..]);
  }

  /** The message at the start of a text, and the text after it. */
  function First(s: string): Msg
    requires StartsRole(s)
  {
    Msg(RoleOf(s), TrimEnd(Body(s)[..MsgEnd(Body(s))]))
  }

  function Rest(s: string): (t: string)
    requires StartsRole(s)
    ensures |t| < |s|
  {
    Body(s)[MsgEnd(Body(s))..]
  }

  lemma {:induction false} SpacesOnly(s: string)
    ensures forall i :: 0 <= i < |s| - |DropSpaces(s)| ==> s[i] == ' '
  {
    if s != "" && s[0] == ' ' { SpacesOnly(s[1..]); }
  }

  lemma {:induction false} TrimmedOnly(s: string)
    ensures forall i :: |TrimEnd(s)| <= i < |s| ==> s[i] == '\n' || s[i] == '\r' || s[i] == ' '
  {
    if s != "" && IsTrimmed(s[|s| - 1]) { TrimmedOnly(s[..|s| - 1]); }
  }

  lemma {:induction false} NoEarlierRole(s: string, i: nat)
    requires i < MsgEnd(s) && s[i] == '\n'
    ensures !StartsRole(s[i + 1..])
  {
    hide StartsRole;
    if i > 0 {
      assert s[1..][i..] == s[i + 1..];
      NoEarlierRole(s[1..], i - 1);
    }
  }

  /** From b to e stands a message whose content is c: it ends before the first line break that
      is followed by a role, and c leaves out the blanks at its end. */
  predicate MessageIn(s: string, b: nat, e: nat, c: string)
    requires e <= |s|
  {
    && b + |c| <= e && c == s[b..b + |c|]
    && (forall i :: b + |c| <= i < e ==> s[i] == '\n' || s[i] == '\r' || s[i] == ' ')
    && (c != "" ==> c[|c| - 1] != '\n' && c[|c| - 1] != '\r' && c[|c| - 1] != ' ')
    && (e < |s| ==> s[e] == '\n' && StartsRole(s[e + 1..]))
    && forall i :: b <= i < e && s[i] == '\n' ==> !StartsRole(s[i + 1..])
  }

  lemma BodyMessage(body: string)
    ensures MessageIn(body, 0, MsgEnd(body), TrimEnd(body[..MsgEnd(body)]))
  {
    TrimmedOnly(body[..MsgEnd(body)]);
    hide MsgEnd, TrimEnd, StartsRole;
    forall i | 0 <= i < MsgEnd(body) && body[i] == '\n' ensures !StartsRole(body[i + 1..]) {
      NoEarlierRole(body, i);
    }
  }

  lemma MessageShift(s: string, b: nat, e: nat, c: string)
    requires b <= |s| && e <= |s| - b && MessageIn(s[b..], 0, e, c)
    ensures MessageIn(s, b, b + e, c)
  {
    hide StartsRole;
    var t := s[b..];
    assert c == s[b..b + |c|] by { assert t[..|c|] == s[b..b + |c|]; }
    forall i | b + |c| <= i < b + e ensures s[i] == '\n' || s[i] == '\r' || s[i] == ' ' {
      assert t[i - b] == s[i];
    }
    forall i | b <= i < b + e && s[i] == '\n' ensures !StartsRole(s[i + 1..]) {
      assert t[i - b] == s[i] && t[i - b + 1..] == s[i + 1..];
    }
    if b + e < |s| { assert t[e] == s[b + e] && t[e + 1..] == s[b + e + 1..]; }
  }

  /** Only spaces stand between a role and the body after it. */
  lemma BodySpaces(s: string)
    requires StartsRole(s)
    ensures var p, b := if "User:" <= s then 5 else 10, |s| - |Body(s)|;
      p <= b && (forall i :: p <= i < b ==> s[i] == ' ') && (b < |s| ==> s[b] != ' ')
  {
    var p, b := if "User:" <= s then 5 else 10, |s| - |Body(s)|;
    assert s[p..] == s[|RolePrefix(RoleOf(s))|..];
    SpacesOnly(s[p..]);
    BodySuffix(s);
    hide DropSpaces;
    forall i | p <= i < b ensures s[i] == ' ' {
      assert s[p..][i - p] == s[i];
    }
  }

  /** The first message of a text: its role, the spaces that are dropped, and where it ends. */
  lemma MessageExact(s: string)
    requires StartsRole(s)
    ensures First(s).role == (if "User:" <= s then User else Assistant)
    ensures var p, b := if "User:" <= s then 5 else 10, |s| - |Body(s)|;
      p <= b && (forall i :: p <= i < b ==> s[i] == ' ') && (b < |s| ==> s[b] != ' ')
    ensures MessageIn(s, |s| - |Body(s)|, |s| - |Rest(s)|, First(s).content)
    ensures Rest(s) == s[|s| - |Rest(s)|..]
  {
    BodySpaces(s);
    BodySuffix(s);
    FirstExact(s);
  }

  lemma FirstExact(s: string)
    requires StartsRole(s) && Body(s) == s[|s| - |Body(s)|..]
    ensures First(s).role == (if "User:" <= s then User else Assistant)
    ensures MessageIn(s, |s| - |Body(s)|, |s| - |Rest(s)|, First(s).content)
    ensures Rest(s) == s[|s| - |Rest(s)|..]
  {
    hide MessageIn, MsgEnd, TrimEnd, Body;
    var b, e := |s| - |Body(s)|, MsgEnd(Body(s));
    BodyMessage(Body(s));
    MessageShift(s, b, e, TrimEnd(Body(s)[..e]));
    assert Body(s)[e..] == s[b + e..];
  }

  function Parse(s: string): seq<Msg>
    decreases |s|
  {
    if s == "" then []
    else if IsBreak(s[0]) then Parse(s[1..])
    else if StartsRole(s) then [First(s)] + Parse(Rest(s))
    else Parse(s[LineEnd(s)..])
  }

  // The four cases of Parse, for proofs that keep its definition hidden.

  lemma ParseMessage(s: string)
    requires StartsRole(s)
    ensures Parse(s) == [First(s)] + Parse(Rest(s))
  {
    hide First, Rest, LineEnd;
    assert s[0] == 'U' || s[0] == 'A';
  }

  lemma ParseSkipsBreak(s: string)
    requires s != "" && IsBreak(s[0])
    ensures Parse(s) == Parse(s[1..])
  {
    hide First, Rest, LineEnd, StartsRole;
  }

  lemma ParseSkipsLine(s: string)
    requires s != "" && !IsBreak(s[0]) && !StartsRole(s)
    ensures LineEnd(s) > 0 && Parse(s) == Parse(s[LineEnd(s)..])
  {
    hide First, Rest, StartsRole;
  }

  lemma BreakOnly(b: char)
    requires IsBreak(b)
    ensures Parse("") == [] && Parse([b]) == []
  {
    hide First, Rest, LineEnd, StartsRole;
    assert [b][1..] == "";
  }

  // ---- appending after a line break or a NUL ----

  /** Characters that no role contains and that are not dropped after one. */
  predicate Stops(c: char) { IsBreak(c) || c == NUL }

  lemma PrefixUnaffected(p: string, x: string, y: string)
    requires forall c :: c in p ==> !Stops(c)
    requires y == "" || Stops(y[0])
    ensures p <= x + y <==> p <= x
  {
    if p <= x {
      assert x + y == p + (x[|p|..] + y);
    }
    if p <= x + y {
      assert forall i :: 0 <= i < |p| ==> (x + y)[i] == p[i] && p[i] in p;
      assert y != "" ==> (x + y)[|x|] == y[0];
      assert |p| <= |x|;
      assert x[..|p|] == (x + y)[..|p|];
    }
  }

  lemma RoleUnaffected(x: string, y: string)
    requires y == "" || Stops(y[0])
    ensures StartsRole(x + y) <==> StartsRole(x)
    ensures StartsRole(x) ==> RoleOf(x + y) == RoleOf(x)
  {
    PrefixUnaffected("User:", x, y);
    PrefixUnaffected("Assistant:", x, y);
  }

  lemma {:induction false} DropSpacesAppend(x: string, y: string)
    requires y == "" || Stops(y[0])
    ensures DropSpaces(x + y) == DropSpaces(x) + y
  {
    if x != "" && x[0] == ' ' {
      assert (x + y)[1..] == x[1..] + y;
      DropSpacesAppend(x[1..], y);
    } else if x == "" {
      assert x + y == y;
    }
  }

  lemma BodyAppend(a: string, y: string)
    requires StartsRole(a) && (y == "" || Stops(y[0]))
    ensures StartsRole(a + y) && RoleOf(a + y) == RoleOf(a)
    ensures Body(a + y) == Body(a) + y
  {
    hide DropSpaces;
    RoleUnaffected(a, y);
    var k := |RolePrefix(RoleOf(a))|;
    assert (a + y)[k..] == a[k..] + y;
    DropSpacesAppend(a[k..], y);
  }

  lemma {:induction false} MsgEndBefore(x: string, r: string)
    requires StartsRole(r)
    ensures MsgEnd(x + ("\n" + r)) == MsgEnd(x)
  {
    var y := "\n" + r;
    if x == "" {
      assert x + y == y && y[1..] == r;
    } else {
      assert (x + y)[1..] == x[1..] + y;
      RoleUnaffected(x[1..], y);
      hide StartsRole;
      MsgEndBefore(x[1..], r);
    }
  }

  lemma {:induction false} LineEndBefore(x: string, y: string)
    requires y == "" || y[0] == '\n'
    ensures LineEnd(x + y) == LineEnd(x)
  {
    if x == "" {
      assert x + y == y;
    } else {
      assert (x + y)[1..] == x[1..] + y;
      LineEndBefore(x[1..], y);
    }
  }

  lemma FirstBefore(a: string, r: string)
    requires StartsRole(a) && StartsRole(r)
    ensures StartsRole(a + ("\n" + r))
    ensures First(a + ("\n" + r)) == First(a)
    ensures Rest(a + ("\n" + r)) == Rest(a) + ("\n" + r)
  {
    hide StartsRole, Body, MsgEnd, TrimEnd;
    var y := "\n" + r;
    BodyAppend(a, y);
    var body := Body(a);
    MsgEndBefore(body, r);
    var e := MsgEnd(body);
    assert (body + y)[..e] == body[..e] && (body + y)[e..] == body[e..] + y;
  }

  /** A role at the start of a line always starts a new message, whatever came before, and
      what came before is parsed as if the text had ended there. */
  lemma {:induction false} ParseSplit(a: string, r: string)
    requires StartsRole(r)
    ensures Parse(a + ("\n" + r)) == Parse(a) + Parse(r)
    decreases |a|
  {
    hide Parse, First, Rest, StartsRole, LineEnd;
    var y := "\n" + r;
    var t := a + y;
    if a == "" {
      assert t == y && y[1..] == r;
      ParseSkipsBreak(y);
      BreakOnly('\n');
    } else if IsBreak(a[0]) {
      assert t[1..] == a[1..] + y;
      ParseSkipsBreak(a);
      ParseSkipsBreak(t);
      ParseSplit(a[1..], r);
    } else if StartsRole(a) {
      FirstBefore(a, r);
      ParseMessage(a);
      ParseMessage(t);
      ParseSplit(Rest(a), r);
    } else {
      RoleUnaffected(a, y);
      LineEndBefore(a, y);
      ParseSkipsLine(a);
      ParseSkipsLine(t);
      var k := LineEnd(a);
      assert t[k..] == a[k..] + y;
      ParseSplit(a[k..], r);
    }
  }

  // ---- line breaks at the end ----

  lemma {:induction false} MsgEndBreak(x: string, b: char)
    requires IsBreak(b)
    ensures MsgEnd(x + [b]) == if MsgEnd(x) == |x| then |x| + 1 else MsgEnd(x)
  {
    var y := [b];
    if x == "" {
      assert x + y == y && y[1..] == "";
    } else {
      assert (x + y)[1..] == x[1..] + y;
      RoleUnaffected(x[1..], y);
      hide StartsRole;
      MsgEndBreak(x[1..], b);
    }
  }

  lemma FirstBreak(a: string, b: char)
    requires StartsRole(a) && IsBreak(b)
    ensures StartsRole(a + [b]) && First(a + [b]) == First(a)
    ensures Rest(a + [b]) == if Rest(a) == "" then "" else Rest(a) + [b]
  {
    hide StartsRole, Body, MsgEnd;
    var y := [b];
    BodyAppend(a, y);
    var body := Body(a);
    MsgEndBreak(body, b);
    var e := MsgEnd(body);
    if e == |body| {
      assert (body + y)[..e + 1][..e] == body[..e] && (body + y)[..e + 1] == body + y;
    } else {
      assert (body + y)[..e] == body[..e] && (body + y)[e..] == body[e..] + y;
    }
  }

  lemma {:induction false} LineEndBreak(x: string, b: char)
    requires IsBreak(b)
    ensures LineEnd(x) < |x| ==> LineEnd(x + [b]) == LineEnd(x)
    ensures LineEnd(x) == |x| ==> LineEnd(x + [b]) == if b == '\n' then |x| else |x| + 1
  {
    if x == "" {
      assert x + [b] == [b];
    } else {
      assert (x + [b])[1..] == x[1..] + [b];
      LineEndBreak(x[1..], b);
    }
  }

  /** A line break at the end of a text changes nothing. */
  lemma {:induction false} ParseBreak(a: string, b: char)
    requires IsBreak(b)
    ensures Parse(a + [b]) == Parse(a)
    decreases |a|
  {
    hide Parse, First, Rest, StartsRole, LineEnd;
    var y := [b];
    var t := a + y;
    BreakOnly(b);
    if a == "" {
      assert t == y;
    } else if IsBreak(a[0]) {
      assert t[1..] == a[1..] + y;
      ParseSkipsBreak(a);
      ParseSkipsBreak(t);
      ParseBreak(a[1..], b);
    } else if StartsRole(a) {
      FirstBreak(a, b);
      ParseMessage(a);
      ParseMessage(t);
      ParseBreak(Rest(a), b);
    } else {
      RoleUnaffected(a, y);
      LineEndBreak(a, b);
      ParseSkipsLine(a);
      ParseSkipsLine(t);
      var k := LineEnd(a);
      if k < |a| {
        assert t[k..] == a[k..] + y;
        ParseBreak(a[k..], b);
      } else {
        assert a[k..] == "" && t[k..] == y && t[k + 1..] == "";
      }
    }
  }

  // ---- printing ----

  function PrintMsg(m: Msg): string { RolePrefix(m.role) + " " + m.content + "\n" }

  function Print(ms: seq<Msg>): string { if ms == [] then "" else PrintMsg(ms[0]) + Print(ms[1..]) }

  /** Contents the parser can produce: no leading space, no trailing white space, no line
      after the first that starts with a role. */
  predicate Normal(c: string) {
    && (c == "" || c[0] != ' ')
    && (c == "" || !IsTrimmed(c[|c| - 1]))
    && MsgEnd(c) == |c|
  }

  predicate AllNormal(ms: seq<Msg>) { forall i :: 0 <= i < |ms| ==> Normal(ms[i].content) }

  lemma HeadOf(r: Role, c: string)
    ensures StartsRole(RolePrefix(r) + " " + c) && RoleOf(RolePrefix(r) + " " + c) == r
    ensures c == "" || c[0] != ' ' ==> Body(RolePrefix(r) + " " + c) == c
  {
    hide Body, DropSpaces;
    var p := RolePrefix(r);
    var t := p + " " + c;
    assert t == p + (" " + c);
    if r.Assistant? { assert t[0] == 'A'; }
    hide StartsRole, RoleOf;
    SpaceDropped(c);
    assert t[|p|..] == " " + c;
    BodyIs(t, p);
  }

  lemma SpaceDropped(c: string)
    ensures c == "" || c[0] != ' ' ==> DropSpaces(" " + c) == c
  {
    assert (" " + c)[1..] == c;
    assert c == "" || c[0] != ' ' ==> DropSpaces(c) == c;
  }

  lemma BodyIs(t: string, p: string)
    requires StartsRole(t) && p == RolePrefix(RoleOf(t))
    ensures |p| <= |t| && Body(t) == DropSpaces(t[|p|..])
  {
    hide DropSpaces;
  }

  /** One printed message parses to itself. */
  lemma ParseOne(m: Msg)
    requires Normal(m.content)
    ensures Parse(RolePrefix(m.role) + " " + m.content) == [m]
    ensures Parse(PrintMsg(m)) == [m]
  {
    var t := RolePrefix(m.role) + " " + m.content;
    HeadOf(m.role, m.content);
    var c := m.content;
    assert First(t) == m && Rest(t) == "" by {
      hide Body, MsgEnd, StartsRole, RoleOf;
      assert c[..|c|] == c && c[|c|..] == "";
    }
    ParseMessage(t);
    BreakOnly('\n');
    assert PrintMsg(m) == t + ['\n'];
    ParseBreak(t, '\n');
  }

  lemma PrintStartsRole(ms: seq<Msg>)
    requires ms != []
    ensures StartsRole(Print(ms))
  {
    var p := RolePrefix(ms[0].role);
    assert Print(ms) == p + (" " + ms[0].content + "\n" + Print(ms[1..]));
  }

  /** Parsing undoes printing. */
  lemma {:induction false} ParsePrint(ms: seq<Msg>)
    requires AllNormal(ms)
    ensures Parse(Print(ms)) == ms
  {
    hide Parse, StartsRole, Normal, RolePrefix;
    if ms == [] {
      BreakOnly('\n');
    } else {
      var m, rest := ms[0], ms[1..];
      ParseOne(m);
      assert ms == [m] + rest;
      if rest == [] {
        assert Print(ms) == PrintMsg(m);
      } else {
        var head := RolePrefix(m.role) + " " + m.content;
        assert Print(ms) == head + ("\n" + Print(rest));
        PrintStartsRole(rest);
        ParseSplit(head, Print(rest));
        ParsePrint(rest);
      }
    }
  }

  lemma {:induction false} MsgEndPrefix(b: string, k: nat)
    requires k <= MsgEnd(b)
    ensures MsgEnd(b[..k]) == k
  {
    if k > 0 {
      assert b[..k][1..] == b[1..][..k - 1];
      if StartsRole(b[1..][..k - 1]) {
        assert b[1..] == b[1..][..k - 1] + b[1..][k - 1..];
        assert StartsRole(b[1..]);
      }
      hide StartsRole;
      MsgEndPrefix(b[1..], k - 1);
    }
  }

  lemma FirstNormal(s: string)
    requires StartsRole(s)
    ensures Normal(First(s).content)
  {
    var body := Body(s);
    var c := First(s).content;
    hide MsgEnd, StartsRole, TrimEnd, RoleOf;
    BodySuffix(s);
    assert c == body[..|c|];
    MsgEndPrefix(body, |c|);
  }

  /** Every parse result is normal, so printing it and parsing again changes nothing. */
  lemma {:induction false} ParseNormal(s: string)
    ensures AllNormal(Parse(s))
    ensures Parse(Print(Parse(s))) == Parse(s)
    decreases |s|
  {
    hide Parse, First, Rest, LineEnd, Normal, StartsRole;
    if s == "" {
      BreakOnly('\n');
    } else if IsBreak(s[0]) {
      ParseSkipsBreak(s);
      ParseNormal(s[1..]);
    } else if StartsRole(s) {
      ParseMessage(s);
      FirstNormal(s);
      ParseNormal(Rest(s));
    } else {
      ParseSkipsLine(s);
      ParseNormal(s[LineEnd(s)..]);
    }
    ParsePrint(Parse(s));
  }

  // ---- the unanswered question ----

  function TrimBreaks(s: string): (r: string)
    ensures r <= s
    ensures r == "" || !IsBreak(r[|r| - 1])
  {
    if s != "" && IsBreak(s[|s| - 1]) then TrimBreaks(s[..|s| - 1]) else s
  }

  function LastLine(s: string): (l: string)
    ensures |l| <= |s| && l == s[|s| - |l|..] && '\n' !in l
    ensures |l| < |s| ==> s[|s| - |l| - 1] == '\n'
  {
    if s == "" || s[|s| - 1] == '\n' then ""
    else
      var l := LastLine(s[..|s| - 1]);
      assert s[|s| - 1 - |l|..] == l + [s[|s| - 1]];
      l + [s[|s| - 1]]
  }

  predicate NeedsResponse(s: string) {
    TrimBreaks(s) != "" && "User:" <= LastLine(TrimBreaks(s))
  }

  lemma {:induction false} BreaksOnly(s: string, i: nat)
    requires |TrimBreaks(s)| <= i < |s|
    ensures s[i] == '\n' || s[i] == '\r'
  {
    if i < |s| - 1 { BreaksOnly(s[..|s| - 1], i); }
  }

  /** From a to b runs a line that starts with the user's role, and only line breaks follow. */
  ghost predicate LastQuestion(s: string, a: nat, b: nat) {
    && a <= b <= |s| && (a == 0 || s[a - 1] == '\n') && "User:" <= s[a..b] && '\n' !in s[a..b]
    && forall i :: b <= i < |s| ==> s[i] == '\n' || s[i] == '\r'
  }

  lemma NeedsShown(s: string)
    requires NeedsResponse(s)
    ensures exists a: nat, b: nat :: LastQuestion(s, a, b)
  {
    var t := TrimBreaks(s);
    var l := LastLine(t);
    hide TrimBreaks, LastLine;
    forall i | |t| <= i < |s| ensures s[i] == '\n' || s[i] == '\r' {
      BreaksOnly(s, i);
    }
    assert s[|t| - |l|..|t|] == l;
    assert LastQuestion(s, |t| - |l|, |t|);
  }

  lemma QuestionNeeds(s: string, a: nat, b: nat)
    requires LastQuestion(s, a, b)
    ensures NeedsResponse(s)
  {
    var t := TrimBreaks(s);
    assert s[a + 4] == s[a..b][4] == ':';
    if |t| < a + 5 { BreaksOnly(s, a + 4); }
    hide TrimBreaks, LastLine;
    assert |t| <= b;
    assert t[a..] == s[a..b][..|t| - a];
    LastCut(t, a, |t| - |LastLine(t)|);
    assert forall i :: 0 <= i < 5 ==> t[a..][i] == s[a..b][i];
  }

  /** A file asks for a response exactly when its last line, line breaks at the end aside, is
      the user's. */
  lemma NeedsExact(s: string)
    ensures NeedsResponse(s) <==> exists a: nat, b: nat :: LastQuestion(s, a, b)
  {
    hide NeedsResponse, LastQuestion;
    if NeedsResponse(s) {
      NeedsShown(s);
    } else if a: nat, b: nat :| LastQuestion(s, a, b) {
      QuestionNeeds(s, a, b);
    }
  }

  lemma {:induction false} ParseTrimmed(s: string)
    ensures Parse(TrimBreaks(s)) == Parse(s)
  {
    if s != "" && IsBreak(s[|s| - 1]) {
      var a := s[..|s| - 1];
      assert s == a + [s[|s| - 1]];
      ParseBreak(a, s[|s| - 1]);
      hide Parse;
      ParseTrimmed(a);
    }
  }

  lemma {:induction false} OneLine(s: string)
    requires '\n' !in s
    ensures MsgEnd(s) == |s|
  {
    if s != "" { OneLine(s[1..]); }
  }

  lemma ParseLine(l: string)
    requires StartsRole(l) && '\n' !in l
    ensures Parse(l) == [First(l)] && '\n' !in First(l).content
  {
    hide Parse, Body, TrimEnd, MsgEnd, StartsRole, RoleOf;
    var body := Body(l);
    BodySuffix(l);
    assert '\n' !in body;
    OneLine(body);
    assert body[..|body|] == body && body[|body|..] == "";
    ParseMessage(l);
    BreakOnly('\n');
  }

  lemma FirstAsks(l: string)
    requires "User:" <= l
    ensures StartsRole(l) && First(l).role == User
  {
    hide Body, MsgEnd, TrimEnd;
  }

  /** The last message is a question of one line. */
  predicate Asks(ms: seq<Msg>) {
    ms != [] && ms[|ms| - 1].role == User && '\n' !in ms[|ms| - 1].content
  }

  lemma LastAsks(s: string)
    requires NeedsResponse(s)
    ensures Asks(Parse(s))
  {
    hide Parse, TrimBreaks, LastLine, StartsRole, First;
    var t := TrimBreaks(s);
    var l := LastLine(t);
    FirstAsks(l);
    ParseTrimmed(s);
    ParseLine(l);
    ParseLastLine(t);
  }

  /** An unanswered question in a file without NUL is the last message the parser finds, its
      role is user, and it is a single line. */
  lemma QuestionIsLast(s: string)
    requires NeedsResponse(s) && NUL !in s
    ensures Asks(Parse(CStr(s)))
  {
    LastAsks(s);
  }

  lemma ParseLastLine(t: string)
    requires StartsRole(LastLine(t))
    ensures exists before :: Parse(t) == before + Parse(LastLine(t))
  {
    hide Parse, LastLine, StartsRole;
    var l := LastLine(t);
    if |l| < |t| {
      var a := CutLastLine(t);
      ParseSplit(a, l);
    } else {
      assert t == l;
      assert Parse(t) == [] + Parse(l);
    }
  }

  /** The test looks at the whole file, the parser only at the part before the first NUL:
      with a NUL in the file the last message the parser finds need not be the question. */
  lemma QuestionBehindNul(answer: string, question: string)
    requires Normal(answer) && Normal(question) && NUL !in answer && '\n' !in question
    ensures var file := PrintMsg(Msg(Assistant, answer)) + [NUL] + ("\n" + (RolePrefix(User) + " " + question));
      NeedsResponse(file) && Parse(CStr(file)) == [Msg(Assistant, answer)]
  {
    var t, q := PrintMsg(Msg(Assistant, answer)), RolePrefix(User) + " " + question;
    assert NUL !in t;
    QuestionLine(question);
    hide Parse, CStr, NeedsResponse, PrintMsg, RolePrefix, Normal;
    TailAsks(t + [NUL], q);
    CStrIs(t, "\n" + q);
    ParseOne(Msg(Assistant, answer));
  }

  lemma TailAsks(a: string, line: string)
    requires "User:" <= line && '\n' !in line && !IsBreak(line[|line| - 1])
    ensures NeedsResponse(a + ("\n" + line))
  {
    hide TrimBreaks, LastLine;
    Regroup(a, "\n", line);
    LastLineIs(a + "\n" + line, a + "\n", line);
  }

  /** The parser makes of a waiting file what the whole file says if and only if the file has
      no NUL. */
  lemma QuestionSeenExact(s: string)
    requires NeedsResponse(s)
    ensures Parse(CStr(s)) == Parse(s) <==> NUL !in s
  {
    hide Parse, CStr, TrimBreaks, LastLine, StartsRole, First;
    var t := TrimBreaks(s);
    var l := LastLine(t);
    FirstAsks(l);
    ParseTrimmed(s);
    ParseLine(l);
    if NUL in s {
      if NUL in l {
        NulInQuestion(s, t, l);
      } else {
        NulBeforeBreaks(s);
        NulBeforeQuestion(s, t, l);
      }
    }
  }

  lemma NulInQuestion(s: string, t: string, l: string)
    requires l == LastLine(t) && StartsRole(l) && NUL in l && Parse(t) == Parse(s)
    requires Parse(l) == [First(l)]
    ensures Parse(CStr(s)) != Parse(s)
  {
    hide Parse, CStr, LastLine, StartsRole, First;
    ParseLastLine(t);
    NulKept(l);
    PlainContents(CStr(s));
    var ms := Parse(s);
    assert ms[|ms| - 1] == First(l);
  }

  lemma NulBeforeQuestion(s: string, t: string, l: string)
    requires t <= s && l == LastLine(t) && StartsRole(l) && NUL in t && NUL !in l && Parse(t) == Parse(s)
    requires |Parse(l)| == 1
    ensures Parse(CStr(s)) != Parse(s)
  {
    hide Parse, CStr, LastLine, StartsRole;
    assert |l| < |t|;
    var a := CutLastLine(t);
    NulBefore(s, a, "\n" + l);
    ParseSplit(a, l);
    MoreBefore(CStr(s), a);
  }

  lemma MoreBefore(t: string, a: string)
    requires t <= a && |t| < |a| && a[|t|] == NUL
    ensures |Parse(t)| <= |Parse(a)|
  {
    hide Parse;
    ParseMore(t, a[|t|..]);
    assert a == t + a[|t|..];
  }

  // ---- a NUL inside a text ----

  lemma {:induction false} CStrCut(s: string)
    requires NUL in s
    ensures |CStr(s)| < |s| && s[|CStr(s)|] == NUL
  {
    if s[0] != NUL { CStrCut(s[1..]); }
  }

  /** What follows the last line that is not blank holds no NUL. */
  lemma NulBeforeBreaks(s: string)
    requires NUL in s
    ensures NUL in TrimBreaks(s)
  {
    hide TrimBreaks;
    TrimBreaksTail(s);
    var i :| 0 <= i < |s| && s[i] == NUL;
    assert TrimBreaks(s)[i] == NUL;
  }

  /** A text whose last line has no NUL is cut before that line. */
  lemma NulBefore(s: string, a: string, last: string)
    requires NUL in s && a + last <= s && NUL in a + last && NUL !in last
    ensures CStr(s) <= a && |CStr(s)| < |a| && a[|CStr(s)|] == NUL
  {
    hide CStr;
    CStrCut(s);
    var c := CStr(s);
    var i :| 0 <= i < |a + last| && (a + last)[i] == NUL;
    assert forall j :: 0 <= j < |last| ==> (a + last)[|a| + j] == last[j] && last[j] in last;
    assert forall j :: |a| <= j < |a + last| ==> (a + last)[j] == last[j - |a|];
    assert s[i] == NUL;
    assert forall j :: 0 <= j < |c| ==> c[j] in c && s[j] == c[j];
    assert forall j :: 0 <= j < |a| ==> a[j] == s[j];
    assert c == s[..|c|] == a[..|c|];
  }

  lemma {:induction false} MsgEndMore(x: string, y: string)
    requires y == "" || Stops(y[0])
    ensures if MsgEnd(x) < |x| then MsgEnd(x + y) == MsgEnd(x) else MsgEnd(x + y) >= |x|
  {
    if x != "" {
      assert (x + y)[1..] == x[1..] + y;
      RoleUnaffected(x[1..], y);
      hide StartsRole;
      MsgEndMore(x[1..], y);
    }
  }

  lemma {:induction false} LineEndMore(x: string, y: string)
    ensures if LineEnd(x) < |x| then LineEnd(x + y) == LineEnd(x) else LineEnd(x + y) >= |x|
  {
    if x != "" {
      assert (x + y)[1..] == x[1..] + y;
      LineEndMore(x[1..], y);
    }
  }

  /** More text after a NUL or a line break never takes messages away. */
  lemma {:induction false} ParseMore(t: string, y: string)
    requires y == "" || Stops(y[0])
    ensures |Parse(t)| <= |Parse(t + y)|
    decreases |t|
  {
    hide Parse, First, Rest, StartsRole, LineEnd;
    BreakOnly('\n');
    if t == "" {
    } else if IsBreak(t[0]) {
      assert (t + y)[1..] == t[1..] + y;
      ParseSkipsBreak(t);
      ParseSkipsBreak(t + y);
      ParseMore(t[1..], y);
    } else if StartsRole(t) {
      ParseMessage(t);
      RestMore(t, y);
      ParseMessage(t + y);
      if Rest(t) != "" { ParseMore(Rest(t), y); }
    } else {
      RoleUnaffected(t, y);
      LineEndMore(t, y);
      ParseSkipsLine(t);
      ParseSkipsLine(t + y);
      var k := LineEnd(t);
      if k < |t| {
        assert (t + y)[k..] == t[k..] + y;
        ParseMore(t[k..], y);
      } else {
        assert t[k..] == "";
      }
    }
  }

  lemma RestMore(t: string, y: string)
    requires StartsRole(t) && (y == "" || Stops(y[0]))
    ensures StartsRole(t + y) && (Rest(t) != "" ==> Rest(t + y) == Rest(t) + y)
  {
    hide StartsRole, Body, MsgEnd;
    BodyAppend(t, y);
    var body := Body(t);
    MsgEndMore(body, y);
    var e := MsgEnd(body);
    assert e < |body| ==> (body + y)[e..] == body[e..] + y;
  }

  lemma PlainFirst(s: string)
    requires StartsRole(s) && NUL !in s
    ensures NUL !in First(s).content && NUL !in Rest(s)
  {
    hide Body, MsgEnd, TrimEnd, StartsRole;
    BodySuffix(s);
  }

  /** What the parser finds in a text without NUL has none. */
  lemma {:induction false} PlainContents(s: string)
    requires NUL !in s
    ensures forall m :: m in Parse(s) ==> NUL !in m.content
    decreases |s|
  {
    hide Parse, First, Rest, StartsRole, LineEnd;
    if s == "" {
      BreakOnly('\n');
    } else if IsBreak(s[0]) {
      ParseSkipsBreak(s);
      PlainContents(s[1..]);
    } else if StartsRole(s) {
      ParseMessage(s);
      PlainFirst(s);
      PlainContents(Rest(s));
    } else {
      ParseSkipsLine(s);
      PlainContents(s[LineEnd(s)..]);
    }
  }

  lemma {:induction false} DropSpacesKeeps(s: string, c: char)
    requires c in s && c != ' '
    ensures c in DropSpaces(s)
  {
    if s[0] == ' ' { DropSpacesKeeps(s[1..], c); }
  }

  lemma {:induction false} TrimEndKeeps(s: string, c: char)
    requires c in s && !IsTrimmed(c)
    ensures c in TrimEnd(s)
  {
    if IsTrimmed(s[|s| - 1]) {
      assert s == s[..|s| - 1] + [s[|s| - 1]];
      TrimEndKeeps(s[..|s| - 1], c);
    }
  }

  /** A NUL in a one-line message stays in its content. */
  lemma NulKept(l: string)
    requires StartsRole(l) && '\n' !in l && NUL in l
    ensures NUL in First(l).content
  {
    var p := RolePrefix(RoleOf(l));
    var rest := l[|p|..];
    assert l == p + rest && NUL !in p;
    hide StartsRole, RoleOf, RolePrefix, DropSpaces, MsgEnd, TrimEnd;
    DropSpacesKeeps(rest, NUL);
    var body := DropSpaces(rest);
    BodySuffix(l);
    assert '\n' !in body;
    OneLine(body);
    assert body[..|body|] == body;
    TrimEndKeeps(body, NUL);
  }

  lemma {:induction false} CStrIs(t: string, rest: string)
    requires NUL !in t
    ensures CStr(t + [NUL] + rest) == t
  {
    var s := t + [NUL] + rest;
    if t != "" {
      assert s[1..] == t[1..] + [NUL] + rest;
      CStrIs(t[1..], rest);
    }
  }

  lemma LastCut(s: string, k: nat, l: nat)
    requires k <= |s| && l <= |s| && '\n' !in s[k..] && '\n' !in s[l..]
    requires (k == 0 || s[k - 1] == '\n') && (l == 0 || s[l - 1] == '\n')
    ensures k == l
  {
    assert forall i :: k <= i < |s| ==> s[i] == s[k..][i - k];
    assert forall i :: l <= i < |s| ==> s[i] == s[l..][i - l];
  }

  lemma LastLineIs(s: string, b: string, line: string)
    requires s == b + line && (b == "" || b[|b| - 1] == '\n')
    requires line != "" && '\n' !in line && !IsBreak(line[|line| - 1])
    ensures TrimBreaks(s) == s && LastLine(s) == line
  {
    hide LastLine;
    var l := LastLine(s);
    assert line == s[|b|..];
    LastCut(s, |b|, |s| - |l|);
  }

  // ---- where roles can start ----

  /** The parser looks for a role only at the start of a line; carriage returns that open a
      line are skipped. */
  predicate LineStart(s: string, q: nat)
    requires q <= |s|
  {
    q == 0 || s[q - 1] == '\n' || (s[q - 1] == '\r' && LineStart(s, q - 1))
  }

  predicate NoRole(s: string) {
    forall q: nat :: q <= |s| && LineStart(s, q) ==> !StartsRole(s[q..])
  }

  lemma {:induction false} LineStartDrop(s: string, k: nat, q: nat)
    requires k <= q <= |s| && LineStart(s, k)
    ensures LineStart(s, q) <==> LineStart(s[k..], q - k)
  {
    if q > k {
      assert s[k..][q - k - 1] == s[q - 1];
      LineStartDrop(s, k, q - 1);
    }
  }

  lemma {:induction false} NoStartInLine(s: string, k: nat, q: nat)
    requires 0 < q <= k <= |s| && '\n' !in s[..k] && s[0] != '\r'
    ensures !LineStart(s, q)
  {
    assert s[q - 1] in s[..k];
    if q > 1 { NoStartInLine(s, k, q - 1); }
  }

  lemma NoRoleDrop(s: string, k: nat)
    requires k <= |s| && LineStart(s, k)
    requires forall q :: 0 <= q < k && LineStart(s, q) ==> !StartsRole(s[q..])
    ensures NoRole(s) <==> NoRole(s[k..])
  {
    hide StartsRole;
    var t := s[k..];
    forall q: nat | k <= q <= |s|
      ensures LineStart(s, q) <==> LineStart(t, q - k)
      ensures s[q..] == t[q - k..]
    {
      LineStartDrop(s, k, q);
    }
    if NoRole(t) {
      forall q: nat | q <= |s| && LineStart(s, q)
        ensures !StartsRole(s[q..])
      {
        if q >= k { assert LineStart(t, q - k); }
      }
    }
    if NoRole(s) {
      forall q: nat | q <= |t| && LineStart(t, q)
        ensures !StartsRole(t[q..])
      {
        assert LineStart(s, q + k);
      }
    }
  }

  /** The parser finds nothing exactly when no line starts with a role. */
  lemma {:induction false} EmptyParse(s: string)
    ensures Parse(s) == [] <==> NoRole(s)
    decreases |s|
  {
    hide First, Rest;
    if s == "" {
    } else if IsBreak(s[0]) {
      NoRoleDrop(s, 1);
      EmptyParse(s[1..]);
    } else if StartsRole(s) {
      ParseMessage(s);
      assert s[0..] == s && LineStart(s, 0);
    } else {
      var k := LineEnd(s);
      forall q: nat | 0 < q <= k
        ensures !LineStart(s, q)
      {
        NoStartInLine(s, k, q);
      }
      assert s[0..] == s;
      EmptyParse(s[k..]);
      if k < |s| {
        NoRoleDrop(s, k + 1);
        assert s[k..][1..] == s[k + 1..] && s[k..][0..] == s[k..];
        NoRoleDrop(s[k..], 1);
      } else {
        assert s[k..] == "";
      }
    }
  }

  lemma {:induction false} LineStartPrefix(a: string, y: string, q: nat)
    requires q <= |a|
    ensures LineStart(a + y, q) <==> LineStart(a, q)
  {
    if q > 0 { LineStartPrefix(a, y, q - 1); }
  }

  lemma NoRoleRuled(a: string)
    ensures NoRole(a + "\n---") <==> NoRole(a)
  {
    hide StartsRole;
    var y := "\n---";
    var s := a + y;
    forall q: nat | q <= |a|
      ensures LineStart(s, q) <==> LineStart(a, q)
      ensures StartsRole(s[q..]) <==> StartsRole(a[q..])
    {
      LineStartPrefix(a, y, q);
      assert s[q..] == a[q..] + y;
      RoleUnaffected(a[q..], y);
    }
    forall q: nat | |a| < q <= |s|
      ensures !StartsRole(s[q..])
    {
      assert s[q..] == y[q - |a|..];
      DashesOnly(s[q..]);
    }
    if NoRole(s) {
      assert forall q: nat :: q <= |a| && LineStart(a, q) ==> LineStart(s, q);
    }
  }

  lemma DashesOnly(d: string)
    requires |d| < 4
    ensures !StartsRole(d)
  {
  }

  // ---- compression ----

  const HEADER := "[Context Summary]\n"
  const RULE := "\n---\n"

  function Compressed(summary: string, recent: seq<Msg>): string {
    HEADER + summary + RULE + Print(recent)
  }

  lemma SkipHeader(rest: string)
    ensures Parse(HEADER + rest) == Parse(rest)
  {
    hide Parse, LineEnd;
    var s := HEADER + rest;
    var line := "[Context Summary]";
    assert '\n' !in line;
    assert s == line + ("\n" + rest);
    assert s[0] == '[';
    LineEndBefore(line, "\n" + rest);
    LineEndAll(line);
    ParseSkipsLine(s);
    assert s[|line|..] == "\n" + rest;
    assert ("\n" + rest)[1..] == rest;
    ParseSkipsBreak("\n" + rest);
  }

  lemma {:induction false} LineEndAll(s: string)
    requires '\n' !in s
    ensures LineEnd(s) == |s|
  {
    if s != "" { LineEndAll(s[1..]); }
  }

  /** What the parser makes of a compressed file: the retained messages, after whatever it
      finds in the summary. */
  lemma ParseCompressed(summary: string, recent: seq<Msg>)
    requires recent != [] && AllNormal(recent)
    ensures Parse(Compressed(summary, recent)) == Parse(summary + "\n---") + recent
  {
    hide Parse, AllNormal, StartsRole;
    var head := summary + "\n---";
    var text := Print(recent);
    assert Compressed(summary, recent) == HEADER + (head + ("\n" + text));
    SkipHeader(head + ("\n" + text));
    PrintStartsRole(recent);
    ParseSplit(head, text);
    ParsePrint(recent);
  }

  /** A compressed file parses to exactly the retained messages if and only if no line of the
      summary starts with a role. */
  lemma CompressExact(summary: string, recent: seq<Msg>)
    requires recent != [] && AllNormal(recent)
    ensures Parse(Compressed(summary, recent)) == recent <==> NoRole(summary)
  {
    hide Parse, NoRole, AllNormal;
    ParseCompressed(summary, recent);
    var found := Parse(summary + "\n---");
    EmptyParse(summary + "\n---");
    NoRoleRuled(summary);
    if found + recent == recent {
      assert |found + recent| == |found| + |recent|;
      assert found == [];
    } else {
      assert found != [];
    }
  }

  lemma PrintMsgEnds(m: Msg)
    ensures PrintMsg(m) != "" && PrintMsg(m)[|PrintMsg(m)| - 1] == '\n'
  {
  }

  lemma {:induction false} PrintLast(ms: seq<Msg>) returns (a: string)
    requires ms != []
    ensures (a == "" || a[|a| - 1] == '\n') && Print(ms) == a + PrintMsg(ms[|ms| - 1])
  {
    hide PrintMsg;
    if |ms| == 1 {
      a := "";
      assert Print(ms[1..]) == "";
    } else {
      var b := PrintLast(ms[1..]);
      a := PrintMsg(ms[0]) + b;
      PrintMsgEnds(ms[0]);
      LastOfJoin(PrintMsg(ms[0]), b);
      Regroup(PrintMsg(ms[0]), b, PrintMsg(ms[|ms| - 1]));
    }
  }

  lemma TrimOneBreak(s: string)
    requires s != "" && !IsBreak(s[|s| - 1])
    ensures TrimBreaks(s + "\n") == s
  {
    assert (s + "\n")[..|s|] == s;
  }

  /** A file that ends in printed messages needs an answer if and only if the last of them is
      a one-line question. */
  lemma PrintedExact(head: string, ms: seq<Msg>)
    requires ms != [] && AllNormal(ms) && (head == "" || head[|head| - 1] == '\n')
    ensures NeedsResponse(head + Print(ms)) <==> Asks(ms)
  {
    var m := ms[|ms| - 1];
    assert Normal(m.content);
    assert Asks(ms) <==> m.role == User && '\n' !in m.content;
    hide *;
    var a := PrintLast(ms);
    Regroup(head, a, PrintMsg(m));
    LastOfJoin(head, a);
    PrintedLast(head + a, m);
    if !(m.role == User && '\n' !in m.content) { PrintedSettles(head + a, m); }
  }

  lemma LastOfJoin(a: string, b: string)
    requires (a == "" || a[|a| - 1] == '\n') && (b == "" || b[|b| - 1] == '\n')
    ensures a + b == "" || (a + b)[|a + b| - 1] == '\n'
  {
  }

  lemma PrintedLast(b: string, m: Msg)
    requires (b == "" || b[|b| - 1] == '\n') && Normal(m.content)
    ensures m.role == User && '\n' !in m.content ==> NeedsResponse(b + PrintMsg(m))
  {
    hide Normal, TrimBreaks, LastLine;
    if m.role == User && '\n' !in m.content {
      var line := RolePrefix(User) + " " + m.content;
      assert b + PrintMsg(m) == (b + line) + "\n" by { hide RolePrefix; }
      QuestionLine(m.content);
      hide RolePrefix;
      LastLineIs(b + line, b, line);
      TrimOneBreak(b + line);
    }
  }

  /** The last line of a printed message that is not a one-line question does not ask. */
  lemma PrintedSettles(b: string, m: Msg)
    requires (b == "" || b[|b| - 1] == '\n') && Normal(m.content)
    requires m.role == Assistant || '\n' in m.content
    ensures !NeedsResponse(b + PrintMsg(m))
  {
    hide Normal, TrimBreaks, LastLine, RolePrefix;
    var p := RolePrefix(m.role) + " ";
    assert b + PrintMsg(m) == (b + p + m.content) + "\n";
    Regroup(b, p, m.content);
    if '\n' in m.content {
      InnerLineSettles(b + p, m.content);
    } else {
      OneLineSettles(b, m.content);
    }
  }

  lemma OneLineSettles(b: string, c: string)
    requires (b == "" || b[|b| - 1] == '\n') && Normal(c) && '\n' !in c
    ensures !NeedsResponse(b + (RolePrefix(Assistant) + " " + c) + "\n")
  {
    hide TrimBreaks, LastLine, MsgEnd;
    var p := RolePrefix(Assistant) + " ";
    assert '\n' !in p;
    LastLineIs(b + (p + c), b, p + c);
    TrimOneBreak(b + (p + c));
    NotAsking(p + c);
  }

  lemma InnerLineSettles(b: string, c: string)
    requires Normal(c) && '\n' in c
    ensures !NeedsResponse(b + c + "\n")
  {
    hide TrimBreaks, LastLine, StartsRole, MsgEnd;
    var l := LastLine(c);
    assert |l| < |c| by { assert |l| == |c| ==> l == c; }
    var i := |c| - |l| - 1;
    NoRoleAfterBreak(c, i);
    assert l != "";
    var front := c[..i + 1];
    assert c == front + l;
    Regroup(b, front, l);
    LastLineIs(b + front + l, b + front, l);
    TrimOneBreak(b + front + l);
    NoRoleNoUser(l);
  }

  lemma NotAsking(l: string)
    requires l != "" && l[0] == 'A'
    ensures !("User:" <= l)
  {
  }

  lemma NoRoleNoUser(l: string)
    requires !StartsRole(l)
    ensures !("User:" <= l)
  {
  }

  lemma QuestionLine(c: string)
    requires Normal(c) && '\n' !in c
    ensures var line := RolePrefix(User) + " " + c; '\n' !in line && !IsBreak(line[|line| - 1]) && "User:" <= line
  {
    hide MsgEnd;
    var p := RolePrefix(User) + " ";
    assert '\n' !in p;
    assert p + c == "User:" + (" " + c);
  }

  /** A compressed file needs an answer if and only if the last retained message is a one-line
      question, so compressing a waiting file without NUL keeps its question, wherever the
      split falls: the split always leaves the last message among the retained ones. */
  lemma CompressKeepsQuestion(text: string, split: nat, summary: string)
    requires split < |Parse(CStr(text))|
    ensures NeedsResponse(Compressed(summary, Parse(CStr(text))[split..])) <==> Asks(Parse(CStr(text)))
    ensures NeedsResponse(text) && NUL !in text ==> NeedsResponse(Compressed(summary, Parse(CStr(text))[split..]))
  {
    hide Parse, NeedsResponse, AllNormal, CStr;
    var ms := Parse(CStr(text));
    var recent := ms[split..];
    if NeedsResponse(text) && NUL !in text { QuestionIsLast(text); }
    ParseNormal(CStr(text));
    AllNormalSplit(ms, split);
    PrintedExact(HEADER + summary + RULE, recent);
  }

  lemma AllNormalSplit(ms: seq<Msg>, k: nat)
    requires AllNormal(ms) && k <= |ms|
    ensures AllNormal(ms[..k]) && AllNormal(ms[k..])
  {
  }

  // ---- the answer ----

  function Answer(response: string): string { "Assistant: " + response + "\n" }

  predicate EndsInNewline(s: string) { s != "" && s[|s| - 1] == '\n' }

  /** No newline ends the last line that is not empty: what is appended continues it. */
  predicate Continues(text: string) { '\n' !in text[|TrimBreaks(text)|..] }

  /** An answer appended to a waiting file becomes the next message if and only if neither has
      a NUL, the file ended in a newline, and the answer is normal; without the newline it is
      swallowed by the question.  Any other answer is parsed like a text of its own.  The file
      still waits if and only if the answer itself asks, or is one line that continues the
      question; after a newline a normal answer does neither. */
  lemma AnswerExact(text: string, response: string)
    requires NeedsResponse(text)
    ensures Parse(CStr(text + Answer(response))) == Parse(CStr(text)) + [Msg(Assistant, response)]
      <==> NUL !in text && NUL !in response && EndsInNewline(text) && Normal(response)
    ensures NUL !in text && EndsInNewline(text) ==>
      Parse(CStr(text + Answer(response))) == Parse(CStr(text)) + Parse(CStr(Answer(response)))
    ensures NeedsResponse(text + Answer(response))
      <==> NeedsResponse(Answer(response)) || (Continues(text) && '\n' !in TrimBreaks(Answer(response)))
    ensures EndsInNewline(text) && Normal(response) ==> !NeedsResponse(text + Answer(response))
  {
    hide Parse, Normal, NeedsResponse, CStr, Answer, Continues, TrimBreaks;
    var got, want := Parse(CStr(text + Answer(response))), Parse(CStr(text)) + [Msg(Assistant, response)];
    AnswerIs(response);
    AnswerWaits(text, response);
    if NUL in text {
      CStrStops(text, Answer(response));
    } else {
      CStrJoin(text, Answer(response));
      if EndsInNewline(text) { AnswerSplits(text, response); }
      if NUL in response {
        PlainContents(CStr(text + Answer(response)));
        assert want[|want| - 1].content == response;
      } else {
        CStrJoin(Answer(response), "");
        AnswerPlain(text, response);
      }
    }
    if EndsInNewline(text) && Normal(response) { PrintedSettles(text, Msg(Assistant, response)); }
  }

  predicate Asking(line: string) { "User:" <= line }

  lemma AsksIfLast(s: string)
    ensures NeedsResponse(s) <==> TrimBreaks(s) != "" && Asking(LastLine(TrimBreaks(s)))
  {
  }

  lemma AnswerWaits(text: string, response: string)
    requires NeedsResponse(text)
    ensures NeedsResponse(text + Answer(response))
      <==> NeedsResponse(Answer(response)) || (Continues(text) && '\n' !in TrimBreaks(Answer(response)))
  {
    hide TrimBreaks, LastLine, NeedsResponse, Asking, Answer, Continues;
    var a := Answer(response);
    var x := TrimBreaks(a);
    AsksIfLast(a);
    AsksIfLast(text + a);
    TrimmedStart(response);
    TrimJoin(text, a);
    LastLineJoin(text, x);
    if '\n' !in x {
      LoneLine(x);
      QuestionContinued(text, x);
    }
  }

  lemma LoneLine(x: string)
    requires x != "" && x[0] == 'A' && '\n' !in x && !IsBreak(x[|x| - 1])
    ensures LastLine(x) == x && !Asking(x)
  {
    hide LastLine, TrimBreaks;
    NotAsking(x);
    LastLineIs(x, "", x);
  }

  lemma QuestionContinued(text: string, x: string)
    requires NeedsResponse(text) && x != "" && x[0] == 'A'
    ensures Asking(LastLine(text) + x) <==> Continues(text)
  {
    hide TrimBreaks, LastLine, Asking;
    AsksIfLast(text);
    var t := TrimBreaks(text);
    var b := text[|t|..];
    assert text == t + b;
    LastLineJoin(t, b);
    if '\n' in b {
      BreaksLeft(text, b);
      NotUser(LastLine(b), x);
    } else {
      Regroup(LastLine(t), b, x);
      StartsWith(LastLine(t), b + x);
    }
  }

  lemma BreaksLeft(text: string, b: string)
    requires b == text[|TrimBreaks(text)|..]
    ensures LastLine(b) == "" || IsBreak(LastLine(b)[0])
  {
    hide TrimBreaks, LastLine;
    TrimBreaksTail(text);
    var l := LastLine(b);
    if l != "" {
      assert l[0] == b[|b| - |l|] == text[|TrimBreaks(text)| + |b| - |l|];
    }
  }

  lemma StartsWith(l: string, x: string)
    requires Asking(l)
    ensures Asking(l + x)
  {
  }

  lemma NotUser(l: string, x: string)
    requires l == "" || IsBreak(l[0])
    requires x != "" && x[0] == 'A'
    ensures !Asking(l + x)
  {
    assert (l + x)[0] == if l == "" then x[0] else l[0];
  }

  lemma TrimmedStart(response: string)
    ensures var x := TrimBreaks(Answer(response)); x != "" && x[0] == 'A'
  {
    var a, x := Answer(response), TrimBreaks(Answer(response));
    TrimBreaksTail(a);
    assert a[0] == 'A';
  }

  /** Breaks at the end of the second of two texts are those of both. */
  lemma {:induction false} TrimJoin(s: string, a: string)
    requires TrimBreaks(a) != ""
    ensures TrimBreaks(s + a) == s + TrimBreaks(a)
  {
    if a != "" && IsBreak(a[|a| - 1]) {
      assert (s + a)[..|s + a| - 1] == s + a[..|a| - 1];
      TrimJoin(s, a[..|a| - 1]);
    }
  }

  lemma InnerLast(x: string)
    requires '\n' in x
    ensures |LastLine(x)| < |x|
  {
    hide LastLine;
    assert x[0..] == x;
  }

  lemma LastLineJoin(s: string, x: string)
    ensures LastLine(s + x) == if '\n' in x then LastLine(x) else LastLine(s) + x
  {
    hide LastLine;
    var t := s + x;
    var k := |t| - |LastLine(t)|;
    if '\n' in x {
      var j := |x| - |LastLine(x)|;
      InnerLast(x);
      assert t[|s| + j..] == x[j..];
      LastCut(t, k, |s| + j);
    } else {
      var j := |s| - |LastLine(s)|;
      assert t[j..] == LastLine(s) + x;
      assert '\n' !in LastLine(s) + x;
      LastCut(t, k, j);
    }
  }

  /** A file that does not end in a newline still waits after every one-line answer. */
  lemma AnsweredStillWaits(response: string)
    requires '\n' !in response && response != "" && !IsBreak(response[|response| - 1])
    ensures NeedsResponse("User: hi") && NeedsResponse("User: hi" + Answer(response))
  {
    hide TrimBreaks, LastLine, NeedsResponse, Continues;
    var q, line := "User: hi", "Assistant: " + response;
    assert "" + q == q;
    LineAsks("", q);
    assert TrimBreaks(q) == q by { LastLineIs(q, "", q); }
    assert '\n' !in "Assistant: ";
    LastLineIs(line, "", line);
    TrimOneBreak(line);
    assert Continues(q) by { NothingLeft(q); }
    AnswerWaits(q, response);
  }

  lemma NothingLeft(q: string)
    requires TrimBreaks(q) == q
    ensures Continues(q)
  {
    assert q[|q|..] == "";
  }

  lemma LineAsks(front: string, line: string)
    requires (front == "" || front[|front| - 1] == '\n') && Asking(line) && '\n' !in line && !IsBreak(line[|line| - 1])
    ensures NeedsResponse(front + line) && NeedsResponse(front + line + "\n")
  {
    hide TrimBreaks, LastLine;
    LastLineIs(front + line, front, line);
    TrimOneBreak(front + line);
  }

  /** An answer whose last line starts like a question keeps any file waiting. */
  lemma AnswerAsksBack(text: string, before: string, line: string)
    requires NeedsResponse(text) && Asking(line) && '\n' !in line && !IsBreak(line[|line| - 1])
    ensures NeedsResponse(text + Answer(before + "\n" + line))
  {
    hide TrimBreaks, LastLine, NeedsResponse, Asking, Continues;
    var front := "Assistant: " + before + "\n";
    LineAsks(front, line);
    assert Answer(before + "\n" + line) == front + line + "\n";
    AnswerWaits(text, before + "\n" + line);
  }

  lemma AnswerIs(response: string)
    ensures Answer(response) == PrintMsg(Msg(Assistant, response))
    ensures NUL in Answer(response) <==> NUL in response
  {
    assert Answer(response) == "Assistant: " + (response + "\n");
  }

  lemma {:induction false} CStrStops(a: string, b: string)
    requires NUL in a
    ensures CStr(a + b) == CStr(a)
  {
    if a[0] != NUL {
      assert (a + b)[1..] == a[1..] + b;
      CStrStops(a[1..], b);
    }
  }

  lemma {:induction false} CStrJoin(a: string, b: string)
    requires NUL !in a
    ensures CStr(a + b) == a + CStr(b)
  {
    if a == "" {
      assert a + b == b;
    } else {
      assert (a + b)[1..] == a[1..] + b;
      CStrJoin(a[1..], b);
    }
  }

  /** After a newline the answer starts a message of its own, whatever it holds. */
  lemma AnswerSplits(text: string, response: string)
    requires NUL !in text && EndsInNewline(text)
    ensures Parse(CStr(text + Answer(response))) == Parse(CStr(text)) + Parse(CStr(Answer(response)))
  {
    hide Parse, CStr, StartsRole;
    var a := text[..|text| - 1];
    var x := CStr(Answer(response));
    CStrJoin(text, Answer(response));
    assert text == a + "\n";
    Regroup(a, "\n", x);
    AnswerStarts(response);
    ParseSplit(a, x);
    ParseBreak(a, '\n');
  }

  lemma AnswerStarts(response: string)
    ensures StartsRole(CStr(Answer(response)))
  {
    hide CStr;
    var p := "Assistant:";
    var rest := " " + response + "\n";
    assert Answer(response) == p + rest;
    CStrJoin(p, rest);
    assert p <= p + CStr(rest);
  }

  /** The exact condition for texts without NUL. */
  lemma AnswerPlain(text: string, response: string)
    requires NeedsResponse(text) && NUL !in text && NUL !in response
    ensures Parse(text + Answer(response)) == Parse(text) + [Msg(Assistant, response)]
      <==> EndsInNewline(text) && Normal(response)
  {
    hide Parse, Normal, NeedsResponse, AllNormal;
    var m := Msg(Assistant, response);
    AnswerIs(response);
    if !Normal(response) {
      ParseNormal(text + Answer(response));
      LastIsNormal(Parse(text + Answer(response)), Parse(text), m);
    } else if EndsInNewline(text) {
      AnswerRecorded(text[..|text| - 1], m);
      assert text == text[..|text| - 1] + "\n";
    } else {
      AnswerSwallowed(text, m);
    }
  }

  lemma LastIsNormal(ms: seq<Msg>, front: seq<Msg>, m: Msg)
    requires AllNormal(ms) && !Normal(m.content)
    ensures ms != front + [m]
  {
    hide Normal;
    assert (front + [m])[|front|] == m;
  }

  lemma AnswerRecorded(a: string, m: Msg)
    requires Normal(m.content)
    ensures Parse((a + "\n") + PrintMsg(m)) == Parse(a + "\n") + [m]
  {
    hide Parse, Normal;
    assert (a + "\n") + PrintMsg(m) == a + ("\n" + PrintMsg(m));
    assert Print([m]) == PrintMsg(m);
    PrintStartsRole([m]);
    ParseSplit(a, PrintMsg(m));
    ParseOne(m);
    ParseBreak(a, '\n');
  }

  lemma {:induction false} NoRoleAfterBreak(s: string, i: nat)
    requires MsgEnd(s) == |s| && i < |s| && s[i] == '\n'
    ensures !StartsRole(s[i + 1..])
  {
    hide StartsRole;
    if i > 0 {
      assert s[1..][i..] == s[i + 1..];
      NoRoleAfterBreak(s[1..], i - 1);
    }
  }

  lemma {:induction false} TrimBreaksTail(s: string)
    ensures forall i :: |TrimBreaks(s)| <= i < |s| ==> IsBreak(s[i])
  {
    if s != "" && IsBreak(s[|s| - 1]) { TrimBreaksTail(s[..|s| - 1]); }
  }

  predicate NoInnerRole(s: string) { forall i: nat :: i < |s| && s[i] == '\n' ==> !StartsRole(s[i + 1..]) }

  lemma ParseWhole(s: string)
    requires StartsRole(s) && NoInnerRole(s)
    ensures |Parse(s)| == 1
  {
    hide Parse, Body, TrimEnd, StartsRole, RoleOf;
    var body := Body(s);
    var d := |s| - |body|;
    BodySuffix(s);
    forall i: nat | i < |body| && body[i] == '\n'
      ensures !StartsRole(body[i + 1..])
    {
      assert s[d + i] == body[i] && s[d + i + 1..] == body[i + 1..];
    }
    assert MsgEnd(body) == |body|;
    ParseMessage(s);
    assert body[|body|..] == "";
    BreakOnly('\n');
  }

  lemma NoRoleInAnswer(line: string, tail: string, m: Msg)
    requires '\n' !in line && Normal(m.content)
    requires forall c :: c in tail ==> IsBreak(c)
    requires !EndsInNewline(tail)
    ensures NoInnerRole(line + tail + PrintMsg(m))
  {
    hide StartsRole, MsgEnd;
    var p := RolePrefix(m.role) + " ";
    var c := m.content;
    var s := line + tail + PrintMsg(m);
    var k := |line| + |tail| + |p|;
    assert s == line + tail + p + c + "\n";
    assert '\n' !in p;
    assert forall j :: 0 <= j < |p| ==> s[|line| + |tail| + j] == p[j];
    forall i: nat | i < |s| && s[i] == '\n'
      ensures !StartsRole(s[i + 1..])
    {
      assert i >= |line| && (i < |line| + |tail| || k <= i);
      if i < |line| + |tail| {
        assert i + 1 < |line| + |tail|;
        BreakStarts(s[i + 1..]) by { assert s[i + 1] == tail[i + 1 - |line|]; }
      } else if i < k + |c| {
        NoRoleAfterBreak(c, i - k);
        assert s[i + 1..] == c[i - k + 1..] + "\n";
        RoleUnaffected(c[i - k + 1..], "\n");
      } else {
        BreakStarts(s[i + 1..]);
      }
    }
  }

  lemma BreakStarts(s: string)
    requires s == "" || IsBreak(s[0])
    ensures !StartsRole(s)
  {
  }

  lemma AnswerSwallowed(text: string, m: Msg)
    requires NeedsResponse(text) && Normal(m.content) && !EndsInNewline(text)
    ensures |Parse(text + PrintMsg(m))| == |Parse(text)|
  {
    hide Parse, Normal, PrintMsg, TrimBreaks, LastLine, NoInnerRole, StartsRole;
    var t := TrimBreaks(text);
    var line := LastLine(t);
    var tail := text[|t|..];
    TailOfBreaks(text, tail);
    NoRoleInAnswer(line, tail, m);
    var x := PrintMsg(m);
    FirstAsks(line);
    StillAsks(line, tail + x);
    Regroup(line, tail, x);
    ParseWhole(line + tail + x);
    ParseTrimmed(text);
    ParseLine(line);
    SameBefore(t, line, tail + x);
    Regroup(t, tail, x);
  }

  lemma TailOfBreaks(text: string, tail: string)
    requires tail == text[|TrimBreaks(text)|..] && !EndsInNewline(text)
    ensures text == TrimBreaks(text) + tail
    ensures forall c :: c in tail ==> IsBreak(c)
    ensures !EndsInNewline(tail)
  {
    hide TrimBreaks;
    TrimBreaksTail(text);
    assert forall i :: 0 <= i < |tail| ==> tail[i] == text[|TrimBreaks(text)| + i];
  }

  lemma StillAsks(line: string, x: string)
    requires "User:" <= line
    ensures StartsRole(line + x)
  {
    assert line == "User:" + line[5..];
    assert line + x == "User:" + (line[5..] + x);
  }

  lemma CutLastLine(t: string) returns (a: string)
    requires |LastLine(t)| < |t|
    ensures t == a + ("\n" + LastLine(t))
  {
    a := t[..|t| - |LastLine(t)| - 1];
  }

  lemma SameBefore(t: string, line: string, x: string)
    requires line == LastLine(t) && StartsRole(line) && StartsRole(line + x)
    requires |Parse(line)| == |Parse(line + x)|
    ensures |Parse(t)| == |Parse(t + x)|
  {
    hide Parse, LastLine, StartsRole;
    if |line| < |t| {
      var a := CutLastLine(t);
      Regroup(a, "\n" + line, x);
      Regroup("\n", line, x);
      ParseSplit(a, line);
      ParseSplit(a, line + x);
    } else {
      assert t == line;
    }
  }

  // ---- the code: pointers into a C string ----

  method SkipBreaks(text: string, from: nat) returns (p: nat)
    requires from <= |text|
    ensures from <= p <= |text| && (p < |text| ==> !IsBreak(text[p]))
    ensures Parse(text[p..]) == Parse(text[from..])
  {
    hide Parse;
    p := from;
    while p < |text| && IsBreak(text[p])
      invariant from <= p <= |text|
      invariant Parse(text[p..]) == Parse(text[from..])
    {
      ParseSkipsBreak(text[p..]);
      assert text[p..][1..] == text[p + 1..];
      p := p + 1;
    }
  }

  method SkipLine(text: string, from: nat) returns (p: nat)
    requires from <= |text|
    ensures p == from + LineEnd(text[from..])
  {
    p := from;
    while p < |text| && text[p] != '\n'
      invariant from <= p <= |text|
      invariant from + LineEnd(text[from..]) == p + LineEnd(text[p..])
    {
      assert text[p..][1..] == text[p + 1..];
      p := p + 1;
    }
  }

  method SkipSpaces(text: string, from: nat) returns (p: nat)
    requires from <= |text|
    ensures from <= p <= |text| && text[p..] == DropSpaces(text[from..])
  {
    p := from;
    while p < |text| && text[p] == ' '
      invariant from <= p <= |text|
      invariant DropSpaces(text[p..]) == DropSpaces(text[from..])
    {
      assert text[p..][1..] == text[p + 1..];
      p := p + 1;
    }
  }

  method FindEnd(text: string, start: nat) returns (end: nat)
    requires start <= |text|
    ensures end == start + MsgEnd(text[start..])
  {
    hide StartsRole;
    end := start;
    while end < |text|
      invariant start <= end <= |text|
      invariant start + MsgEnd(text[start..]) == end + MsgEnd(text[end..])
    {
      assert text[end..][1..] == text[end + 1..];
      if text[end] == '\n' && StartsRole(text[end + 1..]) { break; }
      end := end + 1;
    }
  }

  method TrimBack(text: string, start: nat, end: nat) returns (trim: nat)
    requires start <= end <= |text|
    ensures start <= trim <= end && text[start..trim] == TrimEnd(text[start..end])
  {
    trim := end;
    while trim > start && IsTrimmed(text[trim - 1])
      invariant start <= trim <= end
      invariant TrimEnd(text[start..trim]) == TrimEnd(text[start..end])
    {
      assert text[start..trim][..trim - start - 1] == text[start..trim - 1];
      trim := trim - 1;
    }
  }

  /** One message: its role, its text without the surrounding white space, and where the
      scan goes on. */
  method TakeMessage(text: string, p: nat) returns (m: Msg, end: nat)
    requires p < |text| && StartsRole(text[p..])
    ensures p < end <= |text|
    ensures m == First(text[p..]) && text[end..] == Rest(text[p..])
  {
    hide DropSpaces, MsgEnd, TrimEnd;
    var role, start := TakeRole(text, p);
    start := SkipSpaces(text, start);
    hide StartsRole, RolePrefix, RoleOf, Body;
    end := FindEnd(text, start);
    var trim := TrimBack(text, start, end);
    assert text[start..][..end - start] == text[start..end];
    assert text[start..][end - start..] == text[end..];
    m := Msg(role, text[start..trim]);
  }

  method TakeRole(text: string, p: nat) returns (role: Role, start: nat)
    requires p < |text| && StartsRole(text[p..])
    ensures p < start <= |text|
    ensures role == RoleOf(text[p..]) && Body(text[p..]) == DropSpaces(text[start..])
  {
    hide DropSpaces;
    var s := text[p..];
    role := if "User:" <= s then User else Assistant;
    start := p + |RolePrefix(role)|;
    assert start <= |text| && text[start..] == s[|RolePrefix(role)|..];
  }

  /** parse_conversation, on the characters before the terminating NUL. */
  method ParseConversation(text: string) returns (msgs: seq<Msg>)
    ensures msgs == Parse(text)
  {
    hide Parse, StartsRole, LineEnd, First, Rest;
    msgs := [];
    var p := 0;
    BreakOnly('\n');
    assert text[0..] == text;
    while p < |text|
      invariant p <= |text|
      invariant msgs + Parse(text[p..]) == Parse(text)
    {
      p := SkipBreaks(text, p);
      if p == |text| { break; }
      if StartsRole(text[p..]) {
        var m, end := TakeMessage(text, p);
        ParseMessage(text[p..]);
        assert msgs + ([m] + Parse(text[end..])) == msgs + [m] + Parse(text[end..]);
        msgs := msgs + [m];
        p := end;
      } else {
        var end := SkipLine(text, p);
        ParseSkipsLine(text[p..]);
        assert text[p..][end - p..] == text[end..];
        p := end;
      }
    }
    assert text[|text|..] == "";
  }

  method TrimScan(content: string) returns (end: nat)
    ensures end <= |content| && content[..end] == TrimBreaks(content)
  {
    end := |content|;
    assert content[..end] == content;
    while end > 0 && IsBreak(content[end - 1])
      invariant 0 <= end <= |content|
      invariant TrimBreaks(content[..end]) == TrimBreaks(content)
    {
      assert content[..end][..end - 1] == content[..end - 1];
      end := end - 1;
    }
  }

  method LineScan(t: string) returns (line: nat)
    ensures line <= |t| && t[line..] == LastLine(t)
  {
    hide LastLine;
    line := |t|;
    while line > 0 && t[line - 1] != '\n'
      invariant 0 <= line <= |t|
      invariant forall i :: line <= i < |t| ==> t[i] != '\n'
    {
      line := line - 1;
    }
    LastCut(t, line, |t| - |LastLine(t)|);
  }

  /** needs_response: two backward scans. */
  method CheckNeedsResponse(content: string) returns (needs: bool)
    ensures needs <==> NeedsResponse(content)
  {
    hide TrimBreaks, LastLine;
    var end := TrimScan(content);
    if end == 0 { return false; }
    var line := LineScan(content[..end]);
    needs := end - line >= 5 && content[line..line + 5] == "User:";
    var l := content[..end][line..];
    assert l == LastLine(TrimBreaks(content));
    assert end - line >= 5 ==> l[..5] == content[line..line + 5];
  }

  // ---- the code: building the compressed file ----

  /** The size the code allocates for printed messages. */
  function Allowance(ms: seq<Msg>): nat { if ms == [] then 0 else |ms[0].content| + 20 + Allowance(ms[1..]) }

  lemma {:induction false} AllowanceCovers(ms: seq<Msg>, k: nat)
    requires k < |ms|
    ensures |Print(ms[..k])| + |PrintMsg(ms[k])| <= Allowance(ms)
    ensures Print(ms[..k + 1]) == Print(ms[..k]) + PrintMsg(ms[k])
  {
    if k == 0 {
      assert ms[..1] == [ms[0]] && Print([]) == "";
      assert Print([ms[0]]) == PrintMsg(ms[0]);
    } else {
      AllowanceCovers(ms[1..], k - 1);
      assert ms[..k][1..] == ms[1..][..k - 1] && ms[..k + 1][1..] == ms[1..][..k];
      Regroup(PrintMsg(ms[0]), Print(ms[1..][..k - 1]), PrintMsg(ms[k]));
    }
  }

  /** snprintf at the end of what a buffer of the given size already holds: what does not fit
      is cut off. */
  method BoundedPrint(buf: string, size: nat, text: string) returns (buf': string)
    requires |buf| <= size
    ensures |buf'| <= size
    ensures buf' == buf + text <==> |buf| + |text| <= size
  {
    buf' := buf + if |text| <= size - |buf| then text else text[..size - |buf|];
    if |buf| + |text| > size { assert |buf'| == size && |buf + text| > size; }
  }

  /** The loops that measure and then print messages: nothing is ever cut off. */
  method PrintAll(ms: seq<Msg>, head: string, room: nat) returns (text: string)
    requires |head| <= room
    ensures text == head + Print(ms)
  {
    hide PrintMsg;
    var size: nat := room;
    var i := 0;
    assert ms[0..] == ms && ms[..|ms|] == ms;
    while i < |ms|
      invariant 0 <= i <= |ms|
      invariant size + Allowance(ms[i..]) == room + Allowance(ms)
    {
      assert ms[i..][1..] == ms[i + 1..];
      size := size + |ms[i].content| + 20;
      i := i + 1;
    }
    text := head;
    i := 0;
    assert head + Print(ms[..0]) == head;
    while i < |ms|
      invariant 0 <= i <= |ms|
      invariant text == head + Print(ms[..i]) && |text| <= size
    {
      AllowanceCovers(ms, i);
      Regroup(head, Print(ms[..i]), PrintMsg(ms[i]));
      text := BoundedPrint(text, size, PrintMsg(ms[i]));
      i := i + 1;
    }
  }

  datatype Compression = NotNeeded | Failed | Rewritten(file: string)

  /** The records of one generation: the archived messages, in order. */
  function Archived(ino: nat, gen: nat, ms: seq<Msg>): (ps: seq<(K.Key, string)>)
    ensures |ps| == |ms|
    ensures forall i :: 0 <= i < |ms| ==> ps[i] == (K.MemArchive(ino, gen, i), PrintMsg(ms[i]))
  {
    seq(|ms|, i requires 0 <= i < |ms| => (K.MemArchive(ino, gen, i), PrintMsg(ms[i])))
  }

  const GEN_WRAP: nat := 0x1_0000_0000

  /** try_compress_context.  Whether the context overflows, the split the floating-point
      product asks for, the model's summary and its vector are arbitrary; svec is empty when no
      vector can be made, and gen is the stored generation.
      The messages before the split are archived one by one, the others become the new file;
      the summary is stored whole and printed up to its first NUL. */
  method TryCompress(ino: nat, gen: nat, content: string, overflow: bool, wanted: int, summary: string, svec: string)
    returns (r: Compression, split: nat, gen': nat, puts: seq<(K.Key, string)>, asked: string)
    ensures !overflow ==> r == NotNeeded && puts == [] && gen' == gen
    ensures overflow && |Parse(CStr(content))| < 2 ==> r == Failed && puts == [] && gen' == gen
    ensures overflow && |Parse(CStr(content))| >= 2 ==>
      && 1 <= split < |Parse(CStr(content))| && asked == Print(Parse(CStr(content))[..split])
      && (1 <= wanted < |Parse(CStr(content))| ==> split == wanted)
      && (wanted < 1 ==> split == 1)
      && (wanted >= |Parse(CStr(content))| ==> split == |Parse(CStr(content))| - 1)
      && gen' == (gen + 1) % GEN_WRAP
      && puts == Archived(ino, gen, Parse(CStr(content))[..split]) + SummaryRecord(ino, gen, summary, svec)
      && r == (if summary == "" then Failed else Rewritten(Compressed(CStr(summary), Parse(CStr(content))[split..])))
    ensures r.Rewritten? ==> NUL !in r.file && (NeedsResponse(r.file) <==> Asks(Parse(CStr(content))))
    ensures r.Rewritten? ==> (Parse(CStr(r.file)) == Parse(CStr(content))[split..] <==> NoRole(CStr(summary)))
  {
    hide Parse, NeedsResponse, NoRole, PrintMsg, CStr;
    r, split, gen', puts, asked := NotNeeded, 0, gen, [], "";
    if !overflow { return; }
    var msgs := ParseConversation(CStr(content));
    r := Failed;
    if |msgs| < 2 { return; }
    split := if wanted < 1 then 1 else if wanted >= |msgs| then |msgs| - 1 else wanted;
    asked := PrintAll(msgs[..split], "", 0);
    gen' := (gen + 1) % GEN_WRAP;
    puts := ArchiveAll(ino, gen, msgs, split);
    if summary == "" { return; }
    puts := puts + [(K.MemSummary(ino, gen), summary)];
    if svec != "" { puts := puts + [(K.MemSummaryVector(ino, gen), svec)]; }
    var head := HEADER + CStr(summary) + RULE;
    assert |head| <= 32 + |summary| + 8;
    var file := PrintAll(msgs[split..], head, 32 + |summary| + 8);
    r := Rewritten(file);
    ParseNormal(CStr(content));
    AllNormalSplit(msgs, split);
    CompressExact(CStr(summary), msgs[split..]);
    CompressKeepsQuestion(content, split, CStr(summary));
    PlainContents(CStr(content));
    PlainCompressed(CStr(summary), msgs[split..]);
  }

  lemma {:induction false} PlainPrint(ms: seq<Msg>)
    requires forall m :: m in ms ==> NUL !in m.content
    ensures NUL !in Print(ms)
  {
    if ms != [] { PlainPrint(ms[1..]); }
  }

  lemma PlainCompressed(summary: string, recent: seq<Msg>)
    requires NUL !in summary && forall m :: m in recent ==> NUL !in m.content
    ensures NUL !in Compressed(summary, recent)
    ensures CStr(Compressed(summary, recent)) == Compressed(summary, recent)
  {
    hide CStr, Print;
    PlainPrint(recent);
  }

  /** A summary is stored with its vector, when there is one. */
  function SummaryRecord(ino: nat, gen: nat, summary: string, svec: string): seq<(K.Key, string)> {
    if summary == "" then []
    else [(K.MemSummary(ino, gen), summary)] + if svec == "" then [] else [(K.MemSummaryVector(ino, gen), svec)]
  }

  method ArchiveAll(ino: nat, gen: nat, msgs: seq<Msg>, split: nat) returns (puts: seq<(K.Key, string)>)
    requires split <= |msgs|
    ensures puts == Archived(ino, gen, msgs[..split])
  {
    hide PrintMsg;
    puts := [];
    var i := 0;
    while i < split
      invariant 0 <= i <= split && |puts| == i
      invariant forall j :: 0 <= j < i ==> puts[j] == (K.MemArchive(ino, gen, j), PrintMsg(msgs[j]))
    {
      puts := puts + [(K.MemArchive(ino, gen, i), PrintMsg(msgs[i]))];
      i := i + 1;
    }
  }
}
