/** soj_stratum_transport.c: the line framer over a growable NUL-terminated buffer. */
module Framer {
  import opened Bytes
  import opened Wrappers

  const RBUFSIZE := 2048
  const MAX_FAILURES := 3
  const NL: Byte := 10

  /** What one receive call comes back with; `Again` says whether the socket became readable within a second. */
  datatype Recv = Data(bytes: seq<Byte>) | Again(readable: bool) | Failed {
    /** The receive loop gives up; no data means that the peer has closed. */
    predicate Fatal() {
      Failed? || (Again? && !readable) || (Data? && bytes == [])
    }
  }

  predicate NulFree(s: seq<Byte>) {
    forall i :: 0 <= i < |s| ==> s[i] != 0
  }

  /** The part of a C string before its NUL. */
  function CString(s: seq<Byte>): (r: seq<Byte>)
    ensures |r| <= |s| && r == s[..|r|] && NulFree(r)
  {
    if s == [] || s[0] == 0 then [] else [s[0]] + CString(s[1..])
  }

  lemma {:induction false} CStringExact(s: seq<Byte>)
    ensures CString(s) == s <==> NulFree(s)
  {
    if s != [] && s[0] != 0 {
      CStringExact(s[1..]);
    }
  }

  lemma {:induction false} CStringStops(s: seq<Byte>, t: seq<Byte>)
    requires NulFree(s)
    ensures CString(s + [0] + t) == s
  {
    if s == [] {
    } else {
      CStringStops(s[1..], t);
      assert (s + [0] + t)[1..] == s[1..] + [0] + t;
    }
  }

  lemma {:induction false} HasNul(s: seq<Byte>)
    requires |CString(s)| < |s|
    ensures s[|CString(s)|] == 0
  {
    if s[0] != 0 {
      HasNul(s[1..]);
    }
  }

  /** A buffer that starts with a NUL-terminated text holds exactly that text. */
  lemma Holds(c: seq<Byte>, text: seq<Byte>)
    requires NulFree(text) && |text| < |c| && c[..|text| + 1] == text + [0]
    ensures CString(c) == text
  {
    assert c == text + [0] + c[|text| + 1..];
    CStringStops(text, c[|text| + 1..]);
  }

  lemma NulFreeParts(a: seq<Byte>, b: seq<Byte>)
    ensures NulFree(a + b) <==> NulFree(a) && NulFree(b)
  {
    if NulFree(a + b) {
      assert forall i :: 0 <= i < |a| ==> (a + b)[i] == a[i];
      assert forall i :: 0 <= i < |b| ==> (a + b)[|a| + i] == b[i];
    }
  }

  /** strlen on a buffer that holds a NUL. */
  method Strlen(a: array<Byte>) returns (n: nat)
    requires |CString(a[..])| < a.Length
    ensures n < a.Length && a[..n] == CString(a[..])
  {
    HasNul(a[..]);
    ghost var text := CString(a[..]);
    assert forall i :: 0 <= i < |text| ==> a[i] == text[i];
    n := 0;
    while a[n] != 0
      invariant n <= |text|
      decreases a.Length - n
    {
      n := n + 1;
    }
  }

  /** strchr(sockbuf, newline), or the end of the text. */
  method FindNewline(a: array<Byte>, n: nat) returns (nl: nat)
    requires n <= a.Length
    ensures nl <= n && NL !in a[..nl] && (nl < n ==> a[nl] == NL)
    ensures nl == n <==> NL !in a[..n]
  {
    nl := 0;
    while nl < n && a[nl] != NL
      invariant nl <= n && NL !in a[..nl]
    {
      assert a[..nl + 1] == a[..nl] + [a[nl]];
      nl := nl + 1;
    }
    assert nl < n ==> a[..n][nl] == NL;
  }

  /** The text after the newline at `nl` is moved to the front, with the NUL that ends it. */
  method ShiftDown(a: array<Byte>, nl: nat, n: nat)
    requires nl < n < a.Length
    modifies a
    ensures n - nl <= a.Length && a[..][..n - nl] == old(a[nl + 1..n]) + [0]
  {
    var rem := a[nl + 1..n];
    if |rem| > 0 {
      Memcpy(a, 0, rem + [0]);
    } else {
      a[0] := 0;
    }
  }

  lemma Splits(s: seq<Byte>, nl: nat)
    requires nl < |s| && s[nl] == NL
    ensures s == s[..nl] + [NL] + s[nl + 1..] && NL in s
  {
  }

  lemma Regroup(a: seq<Byte>, b: seq<Byte>, c: seq<Byte>)
    ensures a + (b + [NL] + c) == (a + b + [NL]) + c
  {
  }

  /** All lines, each with the newline that ended it. */
  function Lines(lines: seq<seq<Byte>>): seq<Byte> {
    if lines == [] then [] else Lines(lines[..|lines| - 1]) + lines[|lines| - 1] + [NL]
  }

  /** The readable part of what one receive call brought in: the buffer it fills is read back as a C string. */
  function Readable(e: Recv): (r: seq<Byte>)
    ensures NulFree(r)
    ensures !e.Data? || e.bytes == [] ==> r == []
  {
    if e.Data? then CString(e.bytes) else []
  }

  /** What the first n receive calls add to the text. */
  function Pulled(events: nat -> Recv, n: nat): seq<Byte> {
    if n == 0 then [] else Pulled(events, n - 1) + Readable(events(n - 1))
  }

  function Brought(e: Recv): seq<Byte> {
    if e.Data? then e.bytes else []
  }

  /** What the first n receive calls brought in. */
  function Sent(events: nat -> Recv, n: nat): seq<Byte> {
    if n == 0 then [] else Sent(events, n - 1) + Brought(events(n - 1))
  }

  lemma PieceKept(e: Recv)
    ensures |Readable(e)| <= |Brought(e)|
    ensures Readable(e) == Brought(e) <==> NulFree(Brought(e))
  {
    CStringExact(Brought(e));
  }

  /** Every byte sent is kept exactly when none of them is a NUL. */
  lemma {:induction false} StreamKept(events: nat -> Recv, n: nat)
    ensures |Pulled(events, n)| <= |Sent(events, n)|
    ensures Pulled(events, n) == Sent(events, n) <==> NulFree(Sent(events, n))
  {
    hide CString, NulFree, Readable, Brought;
    if n == 0 {
      assert NulFree([]) by { EmptyNulFree(); }
    } else {
      StreamKept(events, n - 1);
      PieceKept(events(n - 1));
      NulFreeParts(Sent(events, n - 1), Brought(events(n - 1)));
      SamePieces(Pulled(events, n - 1), Readable(events(n - 1)), Sent(events, n - 1), Brought(events(n - 1)));
    }
  }

  lemma FatalAddsNothing(events: nat -> Recv, n: nat)
    requires n > 0 && events(n - 1).Fatal()
    ensures Pulled(events, n) == Pulled(events, n - 1)
  {
  }

  lemma EmptyNulFree()
    ensures NulFree([])
  {
  }

  lemma SamePieces(a: seq<Byte>, b: seq<Byte>, c: seq<Byte>, d: seq<Byte>)
    requires |a| <= |c| && |b| <= |d|
    ensures a + b == c + d <==> a == c && b == d
  {
    if a + b == c + d {
      assert |a + b| == |c + d|;
      assert (a + b)[..|a|] == a && (c + d)[..|a|] == c;
      assert (a + b)[|a|..] == b && (c + d)[|a|..] == d;
    }
  }

  lemma Together(a: seq<Byte>, b: seq<Byte>, c: seq<Byte>)
    ensures a + b + c == a + (b + c)
  {
  }

  class SockBuf {
    var buf: array<Byte>
    var failures: nat
    /** Since the connection was made: the readable part of every chunk received, and the lines returned. */
    ghost var received: seq<Byte>
    ghost var lines: seq<seq<Byte>>

    ghost predicate Valid()
      reads this, buf
    {
      buf.Length > 0 && buf.Length % RBUFSIZE == 0
      && |CString(buf[..])| < buf.Length && failures < MAX_FAILURES
      && received == Lines(lines) + CString(buf[..])
      && NoNewlines(lines)
    }

    /** What the buffer holds. */
    ghost function Content(): seq<Byte>
      reads this, buf
    {
      CString(buf[..])
    }

    /** stratum_connect: a fresh buffer. */
    constructor ()
      ensures Valid() && Content() == [] && received == [] && lines == [] && fresh(buf) && buf.Length == 2048
    {
      buf := new Byte[RBUFSIZE](_ => 0);
      failures, received, lines := 0, [], [];
    }

    /** stratum_buffer_append: grow to the next multiple of 2048 when the text and its NUL do not fit. */
    method Append(s: seq<Byte>)
      requires Valid() && NulFree(s)
      modifies this`buf, this`received, buf
      ensures Valid() && lines == old(lines)
      ensures Content() == old(Content()) + s && received == old(received) + s
      ensures buf.Length >= old(buf.Length) && buf.Length % 2048 == 0 && (buf == old(buf) || fresh(buf))
    {
      hide CString, NulFree, Lines;
      var have := Strlen(buf);
      ghost var content := buf[..have];
      var n := have + |s| + 1;
      if n >= buf.Length {
        Grow(have, n);
      }
      Memcpy(buf, have, s + [0]);
      received := received + s;
      NulFreeParts(content, s);
      assert buf[..n] == content + s + [0];
      assert buf[..][..n] == buf[..n];
      Holds(buf[..], content + s);
    }

    /** realloc to n + (2048 - n % 2048). */
    method Grow(have: nat, n: nat)
      requires have < buf.Length <= n
      modifies this`buf
      ensures fresh(buf) && buf.Length > n && buf.Length % RBUFSIZE == 0 && buf[..have] == old(buf[..have])
    {
      RoundsUp(n);
      var bigger := new Byte[n + (RBUFSIZE - n % RBUFSIZE)];
      Memcpy(bigger, 0, buf[..]);
      buf := bigger;
    }

    /** Splitting the buffer at its first newline: the line, and what stays. */
    method TakeLine() returns (line: Option<seq<Byte>>)
      requires Valid()
      modifies this`lines, buf
      ensures Valid() && received == old(received) && buf == old(buf)
      ensures line.Some? <==> NL in old(Content())
      ensures line.Some? ==> lines == old(lines) + [line.value] && NL !in line.value
                             && old(Content()) == line.value + [NL] + Content()
      ensures line.None? ==> lines == old(lines) && Content() == old(Content())
    {
      hide CString, NulFree, Lines;
      var buflen := Strlen(buf);
      ghost var content := buf[..buflen];
      var nl := FindNewline(buf, buflen);
      if nl == buflen {
        return None;
      }
      var text := buf[..nl];
      line := Some(text);
      ghost var rem := buf[nl + 1..buflen];
      Splits(content, nl);
      assert text == content[..nl] && rem == content[nl + 1..];
      NulFreeParts(text + [NL], rem);
      ShiftDown(buf, nl, buflen);
      Holds(buf[..], rem);
      LinesAppend(lines, text);
      lines := lines + [text];
      assert received == Lines(lines) + rem by {
        Regroup(Lines(old(lines)), text, rem);
      }
    }

    /** stratum_disconnect, as far as the buffer goes. */
    method Disconnect()
      requires buf.Length > 0 && buf.Length % RBUFSIZE == 0
      modifies this`received, this`lines, buf
      ensures Content() == [] && received == [] && lines == [] && buf.Length > 0
      ensures failures < MAX_FAILURES ==> Valid()
    {
      ClearBytes(buf, 0, buf.Length);
      received, lines := [], [];
      assert buf[..][0] == 0;
    }

    /** The receive loop; the clock allows `passes` rounds of it. */
    method Receive(events: nat -> Recv, passes: nat) returns (ok: bool, ghost used: nat)
      requires Valid() && passes > 0 && NL !in Content()
      modifies this`buf, this`received, buf
      ensures Valid() && (buf == old(buf) || fresh(buf))
      ensures 0 < used <= passes
      ensures Content() == old(Content()) + Pulled(events, used)
      ensures received == old(received) + Pulled(events, used)
      ensures NL !in old(Content()) + Pulled(events, used - 1)
      ensures ok <==> !events(used - 1).Fatal()
      ensures forall i :: 0 <= i < used - 1 ==> !events(i).Fatal()
      ensures ok ==> used == passes || NL in Content()
    {
      hide CString, NulFree, Lines, Readable;
      ok, used := true, 0;
      var i := 0;
      var more := true;
      assert Content() == Content() + [] && received == received + [];
      while more
        invariant Valid() && (buf == old(buf) || fresh(buf)) && 0 <= i <= passes && used == i
        invariant Content() == old(Content()) + Pulled(events, i) && received == old(received) + Pulled(events, i)
        invariant i > 0 ==> NL !in old(Content()) + Pulled(events, i - 1)
        invariant i > 0 ==> (ok <==> !events(i - 1).Fatal())
        invariant forall j :: 0 <= j < i - 1 ==> !events(j).Fatal()
        invariant more ==> ok && i < passes && NL !in Content()
        invariant !more ==> i > 0 && (ok ==> i == passes || NL in Content())
        invariant lines == old(lines)
        decreases passes - i, more
      {
        var e := events(i);
        Together(old(Content()), Pulled(events, i), Readable(e));
        Together(old(received), Pulled(events, i), Readable(e));
        match e {
          case Data(bytes) =>
            if bytes == [] {
              ok := false;
            } else {
              var s := Readable(e);
              Append(s);
            }
          case Again(readable) =>
            if !readable {
              ok := false;
            }
          case Failed =>
            ok := false;
        }
        i := i + 1;
        used := i;
        more := ok && i < passes && !HasLine();
      }
    }

    /** strstr(sockbuf, newline) */
    function HasLine(): bool
      reads this, buf
    {
      NL in CString(buf[..])
    }

    /** The failure count, the forced disconnect at two in a row and the pause at three. */
    method Fail()
      requires Valid()
      modifies this`failures, this`received, this`lines, buf
      ensures Valid() && buf == old(buf)
      ensures failures == (old(failures) + 1) % 3
      ensures old(failures) > 0 ==> Content() == [] && received == [] && lines == []
      ensures old(failures) == 0 ==> Content() == old(Content()) && received == old(received) && lines == old(lines)
    {
      hide CString;
      failures := failures + 1;
      if failures >= 2 {
        Disconnect();
      }
      if failures >= MAX_FAILURES {
        failures := 0;
      }
    }

    /** stratum_recv_line; `readable` is the answer of the first wait on the socket. */
    method RecvLine(readable: bool, events: nat -> Recv, passes: nat) returns (line: Option<seq<Byte>>, ghost used: nat)
      requires Valid() && passes > 0
      modifies this, buf
      ensures Valid()
      ensures used == 0 <==> NL in old(Content()) || !readable
      ensures line.Some? <==> NL in old(Content()) + Pulled(events, used)
      ensures used > 0 ==> NL !in old(Content()) + Pulled(events, used - 1)
      ensures line.Some? ==>
        && NL !in line.value && failures == 0
        && lines == old(lines) + [line.value] && received == old(received) + Pulled(events, used)
        && old(Content()) + Pulled(events, used) == line.value + [NL] + Content()
      ensures line.None? && used > 0 ==> used == passes || events(used - 1).Fatal()
      ensures line.None? && used > 0 ==>
        failures == (old(failures) + 1) % 3
      ensures line.None? && (used == 0 || old(failures) == 0) ==>
        && lines == old(lines) && received == old(received) + Pulled(events, used)
        && Content() == old(Content()) + Pulled(events, used)
      ensures line.None? && used > 0 && old(failures) > 0 ==> lines == [] && received == [] && Content() == []
      ensures line.None? && used == 0 ==> failures == old(failures)
    {
      hide CString, NulFree, Lines, Readable, Recv.Fatal;
      used := 0;
      assert Content() + [] == Content() && received + [] == received;
      if !HasLine() {
        if !readable {
          return None, 0;
        }
        var ok;
        ok, used := Receive(events, passes);
        if !ok {
          FatalAddsNothing(events, used);
          Fail();
          return None, used;
        }
      }
      line := TakeLine();
      if line.None? {
        Fail();
      } else {
        failures := 0;
      }
    }
  }

  lemma RoundsUp(n: nat)
    ensures (n + (RBUFSIZE - n % RBUFSIZE)) % RBUFSIZE == 0
    ensures n < n + (RBUFSIZE - n % RBUFSIZE) <= n + RBUFSIZE
  {
  }

  lemma LinesAppend(lines: seq<seq<Byte>>, line: seq<Byte>)
    ensures Lines(lines + [line]) == Lines(lines) + line + [NL]
  {
    assert (lines + [line])[..|lines|] == lines;
  }

  predicate NoNewlines(lines: seq<seq<Byte>>) {
    forall i :: 0 <= i < |lines| ==> NL !in lines[i]
  }

  lemma {:induction false} LinesFront(lines: seq<seq<Byte>>, c: seq<Byte>)
    requires lines != []
    ensures Lines(lines) + c == lines[0] + [NL] + (Lines(lines[1..]) + c)
  {
    if |lines| > 1 {
      var init, last := lines[..|lines| - 1], lines[|lines| - 1];
      LinesFront(init, last + [NL] + c);
      assert lines[1..][..|lines| - 2] == init[1..];
      assert Lines(lines) + c == Lines(init) + (last + [NL] + c);
      assert Lines(lines[1..]) + c == Lines(init[1..]) + (last + [NL] + c);
    }
  }

  lemma FirstNewline(a: seq<Byte>, b: seq<Byte>, c: seq<Byte>, d: seq<Byte>)
    requires a + [NL] + b == c + [NL] + d && NL !in a && NL !in c
    ensures a == c && b == d
  {
    var s := a + [NL] + b;
    assert s[|a|] == NL && s[|c|] == NL;
    assert forall i :: 0 <= i < |a| ==> s[i] == a[i];
    assert forall i :: 0 <= i < |c| ==> s[i] == c[i];
    assert s[..|a|] == a && s[..|c|] == c && s[|a| + 1..] == b && s[|c| + 1..] == d;
  }

  /** Two buffers that have received the same text and hold no whole line have returned the same lines,
      however the text was cut into chunks. */
  lemma {:induction false} ChunksDoNotMatter(
    these: seq<seq<Byte>>, rest: seq<Byte>, those: seq<seq<Byte>>, other: seq<Byte>)
    requires Lines(these) + rest == Lines(those) + other
    requires NoNewlines(these) && NoNewlines(those) && NL !in rest && NL !in other
    ensures these == those && rest == other
  {
    hide Lines;
    if these == [] || those == [] {
      OnlyWithoutLines(these, rest, those, other);
    } else {
      LinesFront(these, rest);
      LinesFront(those, other);
      FirstNewline(these[0], Lines(these[1..]) + rest, those[0], Lines(those[1..]) + other);
      ChunksDoNotMatter(these[1..], rest, those[1..], other);
      assert these == [these[0]] + these[1..] && those == [those[0]] + those[1..];
    }
  }

  lemma OnlyWithoutLines(these: seq<seq<Byte>>, rest: seq<Byte>, those: seq<seq<Byte>>, other: seq<Byte>)
    requires Lines(these) + rest == Lines(those) + other && (these == [] || those == [])
    requires NL !in rest && NL !in other
    ensures these == [] && those == [] && rest == other
  {
    assert Lines([]) + rest == rest && Lines([]) + other == other;
    LineHasNewline(these, rest);
    LineHasNewline(those, other);
  }

  lemma LineHasNewline(lines: seq<seq<Byte>>, rest: seq<Byte>)
    ensures lines != [] ==> NL in Lines(lines) + rest
  {
    if lines != [] {
      assert (Lines(lines) + rest)[|Lines(lines)| - 1] == NL;
    }
  }
}
