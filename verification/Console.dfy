/** The console's receive ring and its canonical line discipline. */
module Console {
  import opened Bytes

  const RX_CAP: nat := 256
  const NL: u8 := 10
  const CR: u8 := 13
  const VINTR: u8 := 0x03
  const VEOF: u8 := 0x04
  const VERASE_BS: u8 := 0x08
  const VERASE_DEL: u8 := 0x7F
  const VKILL: u8 := 0x15

  const IO_BLOCKED := -1

  // ---------- the ring ----------

  /** `(x + 1) & mask` and `(x - 1) & mask`. */
  function Next(x: nat): nat { if x == RX_CAP - 1 then 0 else x + 1 }
  function Prev(x: nat): nat { if x == 0 then RX_CAP - 1 else x - 1 }

  function RingLen(tail: nat, head: nat): nat
    requires tail < RX_CAP
  {
    if head >= tail then head - tail else head + RX_CAP - tail
  }

  /** The place of the i-th byte. */
  function At(tail: nat, i: nat): nat { if tail + i < RX_CAP then tail + i else tail + i - RX_CAP }

  /** The bytes in the ring, oldest first. */
  function RingOf(b: seq<u8>, tail: nat, head: nat): (r: seq<u8>)
    requires |b| == RX_CAP && tail < RX_CAP && head < RX_CAP
    ensures |r| == RingLen(tail, head) < RX_CAP && forall i :: 0 <= i < |r| ==> r[i] == b[At(tail, i)]
  {
    seq(RingLen(tail, head), i requires 0 <= i < RingLen(tail, head) => b[At(tail, i)])
  }

  lemma RingPush(b: seq<u8>, tail: nat, head: nat, c: u8)
    requires |b| == RX_CAP && tail < RX_CAP && head < RX_CAP && Next(head) != tail
    ensures RingLen(tail, head) < RX_CAP - 1
    ensures RingOf(b[head := c], tail, Next(head)) == RingOf(b, tail, head) + [c]
  {
  }

  lemma RingFull(tail: nat, head: nat)
    requires tail < RX_CAP && head < RX_CAP
    ensures Next(head) == tail <==> RingLen(tail, head) == RX_CAP - 1
    ensures head == tail <==> RingLen(tail, head) == 0
  {
  }

  lemma RingPop(b: seq<u8>, tail: nat, head: nat)
    requires |b| == RX_CAP && tail < RX_CAP && head < RX_CAP && head != tail
    ensures var r := RingOf(b, tail, head);
      r != [] && b[Prev(head)] == r[|r| - 1] && RingOf(b, tail, Prev(head)) == r[..|r| - 1]
  {
  }

  lemma RingTake(b: seq<u8>, tail: nat, head: nat)
    requires |b| == RX_CAP && tail < RX_CAP && head < RX_CAP && head != tail
    ensures var r := RingOf(b, tail, head);
      r != [] && b[tail] == r[0] && RingOf(b, Next(tail), head) == r[1..]
  {
    var r, q := RingOf(b, tail, head), RingOf(b, Next(tail), head);
    forall i | 0 <= i < |q|
      ensures q[i] == r[1..][i]
    {
      assert r[1..][i] == b[At(tail, i + 1)];
    }
  }

  // ---------- committed bytes and the line being edited ----------

  predicate Delimiter(c: u8) { c == NL || c == VEOF }

  /** How many of the bytes are committed: all up to the last delimiter. */
  function DoneLen(r: seq<u8>): (n: nat)
    ensures n <= |r| && (n > 0 ==> Delimiter(r[n - 1])) && forall i :: n <= i < |r| ==> !Delimiter(r[i])
  {
    if r == [] then 0 else if Delimiter(r[|r| - 1]) then |r| else DoneLen(r[..|r| - 1])
  }

  function Done(r: seq<u8>): seq<u8> { r[..DoneLen(r)] }
  function Line(r: seq<u8>): seq<u8> { r[DoneLen(r)..] }

  /** What a reader and a typist see: committed bytes, and the line being edited. */
  datatype Tty = Tty(done: seq<u8>, line: seq<u8>)

  function View(r: seq<u8>): Tty { Tty(Done(r), Line(r)) }

  /** The bytes that are all committed, and those that are not. */
  lemma {:induction false} DoneUnique(a: seq<u8>, b: seq<u8>)
    requires a == [] || Delimiter(a[|a| - 1])
    requires forall i :: 0 <= i < |b| ==> !Delimiter(b[i])
    ensures View(a + b) == Tty(a, b)
    decreases |b|
  {
    var r := a + b;
    if b == [] {
      assert r == a;
    } else {
      DoneUnique(a, b[..|b| - 1]);
      assert r[..|r| - 1] == a + b[..|b| - 1];
    }
    assert DoneLen(r) == |a|;
  }

  /** One more character, if there is room for it. */
  function Typed(t: Tty, c: u8): Tty
  {
    if |t.done| + |t.line| >= RX_CAP - 1 then t
    else if Delimiter(c) then Tty(t.done + t.line + [c], [])
    else Tty(t.done, t.line + [c])
  }

  /** The newest byte of the line taken back, if there is one. */
  function Erased(t: Tty): Tty { if t.line == [] then t else Tty(t.done, t.line[..|t.line| - 1]) }

  /** Canonical input: interrupt (if signals are on), kill, erase, end of file, and ordinary characters. */
  function Feed(t: Tty, ch: u8, isig: bool): Tty
  {
    var c := if ch == CR then NL else ch;
    if c == VINTR && isig then Typed(Tty(t.done, []), NL)
    else if c == VKILL then Tty(t.done, [])
    else if c == VERASE_BS || c == VERASE_DEL then Erased(t)
    else if c == 0 then t
    else Typed(t, c)
  }

  /** Raw input: everything but NUL, and the interrupt if signals are on, is data. */
  function FeedRaw(t: Tty, ch: u8, isig: bool): Tty
  {
    var c := if ch == CR then NL else ch;
    if c == VINTR && isig then Typed(Tty(t.done, []), NL) else if c == 0 then t else Typed(t, c)
  }

  /** A character puts a byte into the ring, which is when a reader is woken: data, a delimiter or an interrupt, if there is room. */
  predicate Enqueues(t: Tty, ch: u8, canon: bool, isig: bool)
  {
    var c := if ch == CR then NL else ch;
    if c == VINTR && isig then |t.done| < RX_CAP - 1
    else c != 0 && !(canon && (c == VKILL || c == VERASE_BS || c == VERASE_DEL)) && |t.done| + |t.line| < RX_CAP - 1
  }

  /** Bytes a read of at most `len` returns; a canonical one stops behind a newline and before an end of file. */
  function ReadCount(r: seq<u8>, len: nat, canon: bool): (n: nat)
    ensures n <= len && n <= |r|
    ensures !canon ==> n == if |r| < len then |r| else len
  {
    if len == 0 || r == [] then 0
    else if canon && r[0] == VEOF then 0
    else if canon && r[0] == NL then 1
    else 1 + ReadCount(r[1..], len - 1, canon)
  }

  /** Whether a canonical read goes on to take an end of file out of the ring. */
  predicate TakesEof(r: seq<u8>, len: nat)
  {
    var n := ReadCount(r, len, true);
    n < len && n < |r| && r[n] == VEOF && (n > 0 ==> r[n - 1] != NL)
  }

  /** Bytes a read takes out of the ring. */
  function Consumed(r: seq<u8>, len: nat, canon: bool): (n: nat)
    ensures n <= |r|
  {
    ReadCount(r, len, canon) + if canon && TakesEof(r, len) then 1 else 0
  }

  lemma {:induction false} ReadCountStops(r: seq<u8>, len: nat)
    ensures var n := ReadCount(r, len, true);
      && (forall i :: 0 <= i < n ==> r[i] != VEOF && (r[i] == NL ==> i == n - 1))
      && (n < len && n < |r| ==> r[n] == VEOF || (n > 0 && r[n - 1] == NL))
    decreases |r|
  {
    if len != 0 && r != [] && !Delimiter(r[0]) {
      ReadCountStops(r[1..], len - 1);
      var n := ReadCount(r[1..], len - 1, true);
      forall i | 0 <= i < n + 1
        ensures r[i] != VEOF && (r[i] == NL ==> i == n)
      {
        if i > 0 {
          assert r[i] == r[1..][i - 1];
        }
      }
    }
  }

  /** A canonical read takes committed bytes only, and what it returns crosses no delimiter. */
  lemma ReadStaysInLine(r: seq<u8>, len: nat)
    requires Done(r) != []
    ensures Consumed(r, len, true) <= |Done(r)|
    ensures forall i :: 0 <= i < ReadCount(r, len, true) ==> r[i] != VEOF && (r[i] == NL ==> i == ReadCount(r, len, true) - 1)
  {
    hide DoneLen, ReadCount;
    ReadCountStops(r, len);
    var n, d := ReadCount(r, len, true), DoneLen(r);
    assert Delimiter(r[d - 1]);
  }

  /** What stays behind after a canonical read: the line being edited is untouched. */
  lemma ReadKeepsLine(r: seq<u8>, len: nat)
    requires Done(r) != []
    ensures Consumed(r, len, true) <= |Done(r)|
    ensures View(r[Consumed(r, len, true)..]) == Tty(Done(r)[Consumed(r, len, true)..], Line(r))
  {
    hide DoneLen, Consumed;
    ReadStaysInLine(r, len);
    var k, n := Consumed(r, len, true), DoneLen(r);
    assert r[k..] == r[k..n] + r[n..];
    if k < n {
      assert r[k..n][n - k - 1] == r[n - 1];
    }
    DoneUnique(r[k..n], r[n..]);
    assert Done(r)[k..] == r[k..n];
  }

  function Count(r: seq<u8>, c: u8): nat { multiset(r)[c] }

  lemma CountEmpty(c: u8)
    ensures Count([], c) == 0
  {
  }

  lemma CountPush(r: seq<u8>, x: u8, c: u8)
    ensures Count(r + [x], c) == Count(r, c) + (if x == c then 1 else 0)
  {
  }

  lemma CountPop(r: seq<u8>, c: u8)
    requires r != []
    ensures Count(r[..|r| - 1], c) == Count(r, c) - (if r[|r| - 1] == c then 1 else 0)
  {
    assert r == r[..|r| - 1] + [r[|r| - 1]];
  }

  lemma CountTake(r: seq<u8>, c: u8)
    requires r != []
    ensures Count(r[1..], c) == Count(r, c) - (if r[0] == c then 1 else 0)
  {
    assert r == [r[0]] + r[1..];
  }

  lemma CountNone(r: seq<u8>)
    ensures Count(r, NL) == 0 && Count(r, VEOF) == 0 <==> Done(r) == []
  {
    if Done(r) != [] {
      assert r[DoneLen(r) - 1] in r;
    } else {
      assert NL !in r && VEOF !in r;
    }
  }

  // ---------- the console ----------

  class Terminal {
    const buf: array<u8>
    var head: nat
    var tail: nat
    var dropped: nat
    var lines: nat
    var eofs: nat
    var canonical: bool
    var isig: bool
    /** End-of-file characters that non-canonical reads took out as data. */
    ghost var strays: nat

    ghost predicate Valid()
      reads this, buf
    {
      && buf.Length == RX_CAP && tail < RX_CAP && head < RX_CAP
      && lines == Count(Ring(), NL) && eofs == Count(Ring(), VEOF) + strays
    }

    ghost function Ring(): seq<u8>
      requires buf.Length == RX_CAP && tail < RX_CAP && head < RX_CAP
      reads this, buf
    {
      RingOf(buf[..], tail, head)
    }

    constructor ()
      ensures Valid() && Ring() == [] && canonical && isig && strays == 0 && fresh(buf)
    {
      buf := new u8[RX_CAP](_ => 0);
      head, tail, dropped, lines, eofs := 0, 0, 0, 0, 0;
      canonical, isig := true, true;
      strays := 0;
    }

    /** Takes back the newest byte if it is not committed. */
    method PopLastEditable() returns (popped: bool)
      requires Valid()
      modifies this`head
      ensures Valid()
      ensures popped <==> View(old(Ring())).line != []
      ensures View(Ring()) == Erased(View(old(Ring())))
      ensures |Ring()| <= |old(Ring())|
      decreases |Ring()|
    {
      hide RingOf, Count, DoneLen, View, RingLen;
      RingFull(tail, head);
      ghost var r := Ring();
      if head == tail {
        NothingEditable(r);
        return false;
      }
      RingPop(buf[..], tail, head);
      var prev := Prev(head);
      if buf[prev] == NL || buf[prev] == VEOF {
        DelimiterLast(r);
        return false;
      }
      CountPop(r, NL);
      CountPop(r, VEOF);
      LinePop(r);
      head := prev;
      popped := true;
    }

    /** Takes back the whole line being edited. */
    method PopLine()
      requires Valid()
      modifies this`head
      ensures Valid() && View(Ring()) == Tty(View(old(Ring())).done, []) && |Ring()| <= |old(Ring())|
    {
      hide RingOf, DoneLen, View, Count;
      ghost var r := Ring();
      var more := true;
      while more
        invariant Valid() && View(Ring()).done == View(r).done && |Ring()| <= |r|
        invariant !more ==> View(Ring()).line == []
        decreases more, |View(Ring()).line|
      {
        more := PopLastEditable();
      }
    }

    /** Puts a byte behind the newest one, or drops it if the ring is full. */
    method Enqueue(c: u8) returns (ok: bool)
      requires Valid()
      modifies this, buf
      ensures Valid() && canonical == old(canonical) && isig == old(isig) && strays == old(strays)
      ensures ok <==> |old(Ring())| < RX_CAP - 1
      ensures ok ==> Ring() == old(Ring()) + [c] && dropped == old(dropped)
      ensures !ok ==> Ring() == old(Ring()) && dropped == old(dropped) + 1
    {
      RingFull(tail, head);
      var next := Next(head);
      if next == tail {
        dropped := dropped + 1;
        return false;
      }
      ghost var r := Ring();
      RingPush(buf[..], tail, head, c);
      CountPush(r, c, NL);
      CountPush(r, c, VEOF);
      buf[head] := c;
      head := next;
      if c == NL {
        lines := lines + 1;
      } else if c == VEOF {
        eofs := eofs + 1;
      }
      ok := true;
    }

    /** A character arrives from the keyboard or the serial line. */
    method RxFeed(ch: u8) returns (wake: bool)
      requires Valid()
      modifies this, buf
      ensures Valid() && canonical == old(canonical) && isig == old(isig) && strays == old(strays)
      ensures View(Ring()) == if canonical then Feed(View(old(Ring())), ch, isig) else FeedRaw(View(old(Ring())), ch, isig)
      ensures wake <==> Enqueues(View(old(Ring())), ch, canonical, isig)
      ensures !(ch == VINTR && isig) ==> (wake <==> |Ring()| == |old(Ring())| + 1)
      ensures ch == VINTR && isig ==> (wake <==> View(Ring()).done != View(old(Ring())).done)
    {
      hide RingOf, DoneLen, View, Typed, Count;
      ghost var r := Ring();
      ViewParts(r);
      wake := false;
      var c := if ch == CR then NL else ch;
      if c == VINTR && isig {
        PopLine();
        ViewParts(Ring());
        TypedPush(Ring(), NL);
        NewlineShows(View(r).done);
        wake := Enqueue(NL);
        return;
      }
      if canonical && c == VKILL {
        PopLine();
        return;
      }
      if canonical && (c == VERASE_BS || c == VERASE_DEL) {
        ghost var popped := PopLastEditable();
        return;
      }
      if canonical && c == VEOF {
        TypedPush(r, c);
        wake := Enqueue(c);
        return;
      }
      if c == 0 {
        return;
      }
      TypedPush(r, c);
      wake := Enqueue(c);
    }

    method CanRead() returns (ready: bool)
      requires Valid()
      ensures canonical ==> (ready <==> Done(Ring()) != [] || strays > 0)
      ensures !canonical ==> (ready <==> Ring() != [])
    {
      RingFull(tail, head);
      CountNone(Ring());
      ready := if canonical then lines != 0 || eofs != 0 else head != tail;
    }

    /** Switches between canonical and raw input. */
    method SetLflag(icanon: bool, sig: bool)
      requires Valid()
      modifies this`canonical, this`isig
      ensures Valid() && canonical == icanon && isig == sig
    {
      canonical, isig := icanon, sig;
    }

    /** Takes the oldest byte out of the ring. */
    method TakeOldest() returns (c: u8)
      requires Valid() && Ring() != []
      modifies this`tail, this`lines, this`eofs, this`strays
      ensures Valid() && c == old(Ring())[0] && Ring() == old(Ring())[1..]
      ensures strays == old(strays) + if c == VEOF && !canonical then 1 else 0
    {
      RingFull(tail, head);
      ghost var r := Ring();
      RingTake(buf[..], tail, head);
      CountTake(r, NL);
      CountTake(r, VEOF);
      c := buf[tail];
      if canonical && c == VEOF {
        if eofs != 0 {
          eofs := eofs - 1;
        }
      } else if c == VEOF {
        strays := strays + 1;
      }
      if c == NL && lines != 0 {
        lines := lines - 1;
      }
      tail := Next(tail);
    }

    /** The read loop. */
    method ReadLoop(dst: array<u8>, len: nat) returns (n: nat, sawEof: bool)
      requires Valid() && len <= dst.Length && dst != buf
      modifies this`tail, this`lines, this`eofs, this`strays, dst
      ensures Valid() && n <= len && strays == old(strays) + (if canonical then 0 else Count(dst[..n], VEOF))
      ensures n == ReadCount(old(Ring()), len, canonical) && dst[..n] == old(Ring())[..n]
      ensures Ring() == old(Ring())[Consumed(old(Ring()), len, canonical)..]
      ensures sawEof <==> canonical && TakesEof(old(Ring()), len)
    {
      hide RingOf, DoneLen, Count, Progress, ReadCount, Consumed, TakesEof, RingLen, Next;
      ghost var r := Ring();
      n, sawEof := 0, false;
      var more := true;
      ProgressStart(r, len, canonical);
      assert dst[..0] == [];
      CountEmpty(VEOF);
      while more && n < len && head != tail
        invariant Valid() && n <= len
        invariant strays == old(strays) + (if canonical then 0 else Count(dst[..n], VEOF))
        invariant Progress(r, Ring(), len, n, sawEof, more, canonical, dst[..n])
        invariant more ==> !sawEof
        decreases more, len - n
      {
        RingFull(tail, head);
        ProgressStep(r, Ring(), len, n, canonical, dst[..n]);
        var c := TakeOldest();
        if canonical && c == VEOF {
          sawEof, more := true, false;
        } else {
          ghost var got := dst[..n];
          dst[n] := c;
          n := n + 1;
          assert dst[..n] == got + [c];
          CountPush(got, c, VEOF);
          more := !(canonical && c == NL);
        }
      }
      RingFull(tail, head);
      ProgressEnd(r, Ring(), len, n, sawEof, more, canonical, dst[..n]);
    }

    /** Reads up to `len` bytes. A canonical read waits for a delimiter; then it returns bytes up to it. */
    method Read(dst: array<u8>, len: nat, nonblock: bool) returns (rc: int)
      requires Valid() && len <= dst.Length && dst != buf
      modifies this`tail, this`lines, this`eofs, this`strays, dst
      ensures Valid() && rc <= len && strays == old(strays) + (if canonical || rc <= 0 then 0 else Count(dst[..rc], VEOF))
      ensures ReadOk(old(Ring()), Ring(), len, nonblock, canonical, old(lines) + old(eofs) > 0, rc, dst[..len])
    {
      hide RingOf, DoneLen, Count, ReadCount, Consumed, TakesEof;
      if len == 0 {
        return 0;
      }
      if canonical && lines == 0 && eofs == 0 {
        rc := if nonblock then 0 else IO_BLOCKED;
        return;
      }
      var n, sawEof := ReadLoop(dst, len);
      assert dst[..0] == [];
      CountEmpty(VEOF);
      assert dst[..len][..n] == dst[..n];
      rc := n;
      if n == 0 && !sawEof && !nonblock {
        rc := IO_BLOCKED;
      }
    }
  }

  /** How far a read has come: `n` bytes of r are out, `cur` is what the ring still holds. */
  ghost predicate Progress(r: seq<u8>, cur: seq<u8>, len: nat, n: nat, sawEof: bool, more: bool, canon: bool, got: seq<u8>)
  {
    && n <= len && n <= |r| && got == r[..n]
    && ReadCount(r, len, canon) == n + (if more then ReadCount(r[n..], len - n, canon) else 0)
    && (if sawEof then !more && canon && TakesEof(r, len) && cur == r[n + 1..] else cur == r[n..])
    && (!more && !sawEof ==> canon && n > 0 && r[n - 1] == NL)
    && (more && canon && n > 0 ==> r[n - 1] != NL)
  }

  lemma ProgressStart(r: seq<u8>, len: nat, canon: bool)
    ensures Progress(r, r, len, 0, false, true, canon, [])
  {
    assert r[0..] == r;
  }

  lemma ProgressStep(r: seq<u8>, cur: seq<u8>, len: nat, n: nat, canon: bool, got: seq<u8>)
    requires Progress(r, cur, len, n, false, true, canon, got) && cur != [] && n < len
    ensures if canon && cur[0] == VEOF then Progress(r, cur[1..], len, n, true, false, canon, got)
      else Progress(r, cur[1..], len, n + 1, false, !(canon && cur[0] == NL), canon, got + [cur[0]])
  {
    assert cur[0] == r[n] && cur[1..] == r[n + 1..];
    assert r[..n + 1] == r[..n] + [r[n]];
  }

  lemma ProgressEnd(r: seq<u8>, cur: seq<u8>, len: nat, n: nat, sawEof: bool, more: bool, canon: bool, got: seq<u8>)
    requires Progress(r, cur, len, n, sawEof, more, canon, got) && (!more || n == len || cur == [])
    ensures n == ReadCount(r, len, canon) && got == r[..n] && cur == r[Consumed(r, len, canon)..]
    ensures sawEof <==> canon && TakesEof(r, len)
  {
  }

  /** What a read does: `ready` tells whether a canonical read found a delimiter counted. */
  ghost predicate ReadOk(r: seq<u8>, r': seq<u8>, len: nat, nonblock: bool, canon: bool, ready: bool, rc: int, got: seq<u8>)
  {
    if len == 0 then rc == 0 && r' == r
    else if canon && !ready then r' == r && rc == if nonblock then 0 else IO_BLOCKED
    else
      var n := ReadCount(r, len, canon);
      && r' == r[Consumed(r, len, canon)..] && |got| == len && got[..n] == r[..n]
      && rc == if n > 0 || nonblock || (canon && TakesEof(r, len)) then n else IO_BLOCKED
  }

  lemma ViewParts(r: seq<u8>)
    ensures r == Done(r) + Line(r) == View(r).done + View(r).line
  {
  }

  lemma NothingEditable(r: seq<u8>)
    requires r == []
    ensures View(r).line == []
  {
  }

  lemma DelimiterLast(r: seq<u8>)
    requires r != [] && Delimiter(r[|r| - 1])
    ensures View(r).line == []
  {
  }

  lemma LinePop(r: seq<u8>)
    requires r != [] && !Delimiter(r[|r| - 1])
    ensures View(r).line != [] && View(r[..|r| - 1]) == Erased(View(r))
  {
    var s := r[..|r| - 1];
    assert DoneLen(r) == DoneLen(s);
    assert Done(s) == Done(r);
    assert Line(s) == Line(r)[..|Line(r)| - 1];
  }

  /** Appending a character commits the line or lengthens it. */
  lemma TypedPush(r: seq<u8>, c: u8)
    ensures View(if |r| < RX_CAP - 1 then r + [c] else r) == Typed(View(r), c)
  {
    hide DoneLen;
    ViewParts(r);
    if |r| < RX_CAP - 1 {
      if Delimiter(c) {
        DoneUnique(r + [c], []);
        assert r + [c] + [] == r + [c];
      } else {
        DoneUnique(Done(r), Line(r) + [c]);
        assert Done(r) + (Line(r) + [c]) == r + [c];
      }
    }
  }

  /** A newline on an empty line is visible to readers if it fits. */
  lemma NewlineShows(done: seq<u8>)
    ensures Typed(Tty(done, []), NL).done != done <==> |done| < RX_CAP - 1
  {
    assert |done + [] + [NL]| == |done| + 1;
  }

  // ---------- what canonical mode promises ----------

  /** The counters of a canonical terminal tell whether bytes are committed if and only if raw reads
      returned no end of file so far, or bytes are committed anyway. */
  lemma ReadyIff(r: seq<u8>, lines: nat, eofs: nat, strays: nat)
    requires lines == Count(r, NL) && eofs == Count(r, VEOF) + strays
    ensures (lines + eofs > 0 <==> Done(r) != []) <==> strays == 0 || Done(r) != []
  {
    hide Count, DoneLen;
    CountNone(r);
  }

  /** A canonical read on committed bytes leaves the line being edited alone and returns at most one line: it stops short of `len`
      only behind a newline or before an end of file, which it takes out too. */
  lemma CanonicalRead(r: seq<u8>, r': seq<u8>, len: nat, nonblock: bool, rc: int, got: seq<u8>)
    requires ReadOk(r, r', len, nonblock, true, true, rc, got) && len > 0 && Done(r) != []
    ensures 0 <= rc <= len && rc <= |Done(r)| && got[..rc] == Done(r)[..rc] && View(r').line == View(r).line
    ensures rc < len && !(rc > 0 && got[rc - 1] == NL) ==> rc < |Done(r)| && Done(r)[rc] == VEOF
    ensures View(r').done == Done(r)[rc + (if rc < len && !(rc > 0 && got[rc - 1] == NL) then 1 else 0)..]
    ensures forall i :: 0 <= i < rc - 1 ==> !Delimiter(got[i])
    ensures rc == 0 ==> Done(r)[0] == VEOF
  {
    hide DoneLen;
    FirstCommitted(r, len);
    hide ReadCount;
    ReadStaysInLine(r, len);
    ReadCountStops(r, len);
    ReadKeepsLine(r, len);
    var n: int := ReadCount(r, len, true);
    assert Delimiter(r[DoneLen(r) - 1]);
    if n > 0 {
      assert got[..n][n - 1] == r[..n][n - 1] == r[n - 1];
    }
    forall i | 0 <= i < n - 1
      ensures !Delimiter(got[i])
    {
      assert got[..n][i] == r[..n][i] == r[i];
    }
    assert r[..n] == Done(r)[..n];
  }

  lemma FirstCommitted(r: seq<u8>, len: nat)
    requires Done(r) != [] && len > 0
    ensures r != [] && Done(r)[0] == r[0] && (ReadCount(r, len, true) == 0 <==> r[0] == VEOF)
    ensures r[0] == VEOF ==> TakesEof(r, len)
  {
  }

  /** An end of file that is typed, read raw, and followed by a switch back to canonical input:
      the ring is empty, yet a canonical read is told to go ahead. */
  method RawEofIsStray() returns (t: Terminal, ready: bool)
    ensures fresh(t) && fresh(t.buf) && t.Valid() && t.canonical && t.Ring() == [] && ready
  {
    hide RingOf, Count, DoneLen, View, Feed, ReadOk;
    t := new Terminal();
    EofIsCommitted();
    ghost var wake := t.RxFeed(VEOF);
    ViewParts(t.Ring());
    t.SetLflag(false, true);
    var dst := new u8[1];
    ghost var counted := t.lines + t.eofs > 0;
    assert t.Ring() == [VEOF];
    var rc := t.Read(dst, 1, true);
    RawReadOne(t.Ring(), counted, rc, dst[..1]);
    t.SetLflag(true, true);
    ready := t.CanRead();
  }

  lemma RawReadOne(r': seq<u8>, ready: bool, rc: int, got: seq<u8>)
    requires ReadOk([VEOF], r', 1, true, false, ready, rc, got)
    ensures r' == [] && rc == 1 && got[..1] == got && Count(got, VEOF) == 1
  {
    assert got == got[..1];
  }

  lemma EofIsCommitted()
    ensures View([]) == Tty([], []) && Feed(View([]), VEOF, true) == Tty([VEOF], [])
  {
  }
}
