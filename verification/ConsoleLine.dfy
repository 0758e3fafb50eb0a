/** Line editing: what a run of keys leaves of the line, and what each key does to the terminal. */
module ConsoleLine {
  import opened Bytes
  import opened Console

  // ---------- one key ----------

  predicate Room(t: Tty) { |t.done| + |t.line| < RX_CAP - 1 }

  predicate Erases(c: u8) { c == VERASE_BS || c == VERASE_DEL }

  predicate Interrupts(c: u8, isig: bool) { c == VINTR && isig }

  /** A key that stands for itself in the line being edited. */
  predicate Ordinary(c: u8, isig: bool)
  {
    c != 0 && c != NL && c != CR && c != VEOF && c != VKILL && !Erases(c) && !Interrupts(c, isig)
  }

  /** Kill empties the line and no committed byte is lost. */
  lemma KillEmptiesLine(t: Tty, isig: bool)
    ensures var k := Feed(t, VKILL, isig); k.line == [] && k.done == t.done
  {
  }

  /** Erase takes back what an ordinary key put there, and nothing where the line is empty. */
  lemma EraseUndoesKey(t: Tty, c: u8, e: u8, isig: bool)
    requires Erases(e)
    ensures Ordinary(c, isig) && Room(t) ==> Feed(Feed(t, c, isig), e, isig) == t != Feed(t, c, isig)
    ensures t.line == [] ==> Feed(t, e, isig) == t
  {
    if Ordinary(c, isig) && Room(t) {
      assert (t.line + [c])[..|t.line|] == t.line;
      assert |Feed(t, c, isig).line| == |t.line| + 1;
    }
  }

  /** An interrupt drops the line and leaves an empty one committed, also in raw input. */
  lemma InterruptDropsLine(t: Tty)
    requires |t.done| < RX_CAP - 1
    ensures Feed(t, VINTR, true) == FeedRaw(t, VINTR, true) == Tty(t.done + [NL], [])
  {
    assert t.done + [] + [NL] == t.done + [NL];
  }

  /** Carriage return is newline; NUL is nothing. */
  lemma ReturnIsNewline(t: Tty, isig: bool)
    ensures Feed(t, CR, isig) == Feed(t, NL, isig) && FeedRaw(t, CR, isig) == FeedRaw(t, NL, isig)
    ensures Feed(t, 0, isig) == FeedRaw(t, 0, isig) == t
  {
  }

  /** Newline and end of file commit the whole line behind what is committed already. */
  lemma DelimiterCommits(t: Tty, c: u8, isig: bool)
    requires Room(t) && (c == NL || c == VEOF)
    ensures var n := Feed(t, c, isig); n.line == [] && n.done == t.done + t.line + [c]
  {
  }

  /** With no room only kill, erase and an interrupt that makes room change anything. */
  lemma FullDrops(t: Tty, c: u8, isig: bool)
    requires !Room(t) && !Interrupts(c, isig)
    ensures c != VKILL && !Erases(c) ==> Feed(t, c, isig) == t
    ensures FeedRaw(t, c, isig) == t
  {
  }

  /** In raw input every byte but NUL is data: nothing is taken back, one byte comes behind all others. */
  lemma RawAppends(t: Tty, c: u8, isig: bool)
    requires Room(t) && c != 0 && c != CR && !Interrupts(c, isig)
    ensures var n := FeedRaw(t, c, isig); n.done + n.line == t.done + t.line + [c]
  {
    assert t.done + (t.line + [c]) == t.done + t.line + [c];
    assert t.done + t.line + [c] + [] == t.done + t.line + [c];
  }

  // ---------- a run of keys ----------

  /** Keys that edit the line and commit nothing. */
  predicate Edits(keys: seq<u8>, isig: bool)
  {
    forall i :: 0 <= i < |keys| ==> Ordinary(keys[i], isig) || Erases(keys[i]) || keys[i] == VKILL
  }

  /** The keys one after the other. */
  function FeedAll(t: Tty, keys: seq<u8>, isig: bool): Tty
    decreases |keys|
  {
    if keys == [] then t else FeedAll(Feed(t, keys[0], isig), keys[1..], isig)
  }

  /** No key of the run meets a full ring. */
  predicate NeverFull(t: Tty, keys: seq<u8>, isig: bool)
    decreases |keys|
  {
    keys == [] || (Room(t) && NeverFull(Feed(t, keys[0], isig), keys[1..], isig))
  }

  /** A byte with `depth` bytes behind it in the line does not outlive the keys: a kill comes, or more erases than bytes behind it. */
  predicate Cancelled(keys: seq<u8>, depth: nat)
  {
    keys != [] &&
    if keys[0] == VKILL then true
    else if Erases(keys[0]) then depth == 0 || Cancelled(keys[1..], depth - 1)
    else Cancelled(keys[1..], depth + 1)
  }

  /** The keys that remain: those that stand for themselves and that no later key cancels. */
  function Survivors(keys: seq<u8>, isig: bool): seq<u8>
  {
    if keys == [] then []
    else (if Ordinary(keys[0], isig) && !Cancelled(keys[1..], 0) then [keys[0]] else []) + Survivors(keys[1..], isig)
  }

  /** What remains of a line that has `depth` bytes behind it. */
  function Remains(line: seq<u8>, keys: seq<u8>, depth: nat): seq<u8>
  {
    if line == [] then []
    else if Cancelled(keys, depth) then Remains(line[..|line| - 1], keys, depth + 1)
    else line
  }

  /** Who is farther from the end of the line is cancelled later. */
  lemma {:induction false} DeeperLivesLonger(keys: seq<u8>, depth: nat)
    requires Cancelled(keys, depth + 1)
    ensures Cancelled(keys, depth)
  {
    if keys[0] != VKILL {
      if !Erases(keys[0]) {
        DeeperLivesLonger(keys[1..], depth + 1);
      } else if depth > 0 {
        DeeperLivesLonger(keys[1..], depth - 1);
      }
    }
  }

  /** The first key moves all bytes of the line by one place. */
  lemma {:induction false} RemainsShifts(line: seq<u8>, keys: seq<u8>, depth: nat)
    requires keys != []
    ensures keys[0] == VKILL ==> Remains(line, keys, depth) == []
    ensures Erases(keys[0]) ==> Remains(line, keys, depth + 1) == Remains(line, keys[1..], depth)
    ensures keys[0] != VKILL && !Erases(keys[0]) ==> Remains(line, keys, depth) == Remains(line, keys[1..], depth + 1)
    decreases |line|
  {
    if line != [] {
      RemainsShifts(line[..|line| - 1], keys, depth + 1);
    }
  }

  /** However ordinary keys, erases and kills are mixed, what they leave of the line is what no later key cancels, in order. */
  lemma {:induction false} LineIsSurvivors(done: seq<u8>, line: seq<u8>, keys: seq<u8>, isig: bool)
    requires Edits(keys, isig) && NeverFull(Tty(done, line), keys, isig)
    ensures FeedAll(Tty(done, line), keys, isig) == Tty(done, Remains(line, keys, 0) + Survivors(keys, isig))
    decreases |keys|
  {
    hide Feed, Ordinary, Remains;
    if keys == [] {
      NothingTyped(line);
    } else {
      var k, rest := keys[0], keys[1..];
      assert Edits(rest, isig);
      OneKey(done, line, keys, isig);
      LineIsSurvivors(done, Feed(Tty(done, line), k, isig).line, rest, isig);
    }
  }

  lemma NothingTyped(line: seq<u8>)
    ensures Remains(line, [], 0) + [] == line
  {
  }

  /** The first key of a run: whether it is typed before or belongs to the run makes no difference. */
  lemma OneKey(done: seq<u8>, line: seq<u8>, keys: seq<u8>, isig: bool)
    requires keys != [] && Room(Tty(done, line)) && (Ordinary(keys[0], isig) || Erases(keys[0]) || keys[0] == VKILL)
    ensures var t := Feed(Tty(done, line), keys[0], isig);
      t.done == done && Remains(t.line, keys[1..], 0) + Survivors(keys[1..], isig) == Remains(line, keys, 0) + Survivors(keys, isig)
  {
    hide Survivors, Cancelled, Remains;
    var k, rest := keys[0], keys[1..];
    RemainsShifts(line, keys, 0);
    FirstSurvivor(keys, isig);
    assert [] + Survivors(rest, isig) == Survivors(rest, isig);
    if Ordinary(k, isig) {
      OneMore(line, k, rest);
      var kept := if Cancelled(rest, 0) then [] else [k];
      assert Remains(line, rest, 1) + kept + Survivors(rest, isig) == Remains(line, rest, 1) + (kept + Survivors(rest, isig));
    } else if Erases(k) {
      EraseShortens(line, keys);
    } else {
      NothingRemains(rest);
    }
  }

  lemma NothingRemains(keys: seq<u8>)
    ensures Remains([], keys, 0) == []
  {
  }

  lemma EraseShortens(line: seq<u8>, keys: seq<u8>)
    requires keys != [] && Erases(keys[0])
    ensures Remains(line, keys, 0) == Remains(if line == [] then line else line[..|line| - 1], keys[1..], 0)
  {
    if line != [] {
      RemainsShifts(line[..|line| - 1], keys, 0);
    }
  }

  lemma FirstSurvivor(keys: seq<u8>, isig: bool)
    requires keys != []
    ensures Survivors(keys, isig)
      == (if Ordinary(keys[0], isig) && !Cancelled(keys[1..], 0) then [keys[0]] else []) + Survivors(keys[1..], isig)
  {
  }

  /** An ordinary key and the line before it, under the keys that follow. */
  lemma OneMore(line: seq<u8>, k: u8, rest: seq<u8>)
    ensures Remains(line + [k], rest, 0) == Remains(line, rest, 1) + if Cancelled(rest, 0) then [] else [k]
  {
    assert (line + [k])[..|line|] == line;
    if !Cancelled(rest, 0) && Cancelled(rest, 1) {
      DeeperLivesLonger(rest, 0);
    }
  }

  lemma {:induction false} FeedAllThen(t: Tty, keys: seq<u8>, c: u8, isig: bool)
    ensures FeedAll(t, keys + [c], isig) == Feed(FeedAll(t, keys, isig), c, isig)
    decreases |keys|
  {
    if keys == [] {
      assert [c][1..] == [];
    } else {
      assert (keys + [c])[1..] == keys[1..] + [c];
      FeedAllThen(Feed(t, keys[0], isig), keys[1..], c, isig);
    }
  }

  /** Typed on an empty line and ended with newline, a run of keys commits its survivors and a newline, behind what was committed. */
  lemma CommittedLine(done: seq<u8>, keys: seq<u8>, end: u8, isig: bool)
    requires Edits(keys, isig) && NeverFull(Tty(done, []), keys + [end], isig) && (end == NL || end == CR)
    ensures FeedAll(Tty(done, []), keys + [end], isig) == Tty(done + Survivors(keys, isig) + [NL], [])
  {
    NeverFullSplit(Tty(done, []), keys, end, isig);
    LineIsSurvivors(done, [], keys, isig);
    FeedAllThen(Tty(done, []), keys, end, isig);
    var s := Survivors(keys, isig);
    assert [] + s == s;
    var t := Tty(done, s);
    ReturnIsNewline(t, isig);
    DelimiterCommits(t, NL, isig);
  }

  lemma {:induction false} NeverFullSplit(t: Tty, keys: seq<u8>, c: u8, isig: bool)
    requires NeverFull(t, keys + [c], isig)
    ensures NeverFull(t, keys, isig) && Room(FeedAll(t, keys, isig))
    decreases |keys|
  {
    if keys != [] {
      assert (keys + [c])[1..] == keys[1..] + [c];
      NeverFullSplit(Feed(t, keys[0], isig), keys[1..], c, isig);
    }
  }

  /** A kill anywhere in the run: only the keys behind it matter. */
  lemma {:induction false} KillForgets(before: seq<u8>, after: seq<u8>, isig: bool)
    requires Edits(before, isig)
    ensures Survivors(before + [VKILL] + after, isig) == Survivors(after, isig)
    decreases |before|
  {
    var keys := before + [VKILL] + after;
    if before == [] {
      assert keys[1..] == after;
    } else {
      assert keys[1..] == before[1..] + [VKILL] + after;
      KillForgets(before[1..], after, isig);
      KillReaches(before[1..], after, 0);
    }
  }

  lemma {:induction false} KillReaches(before: seq<u8>, after: seq<u8>, depth: nat)
    ensures Cancelled(before + [VKILL] + after, depth)
    decreases |before|
  {
    var keys := before + [VKILL] + after;
    if before != [] && keys[0] != VKILL {
      assert keys[1..] == before[1..] + [VKILL] + after;
      KillReaches(before[1..], after, depth + 1);
      if Erases(keys[0]) && depth > 0 {
        KillReaches(before[1..], after, depth - 1);
      }
    }
  }

  /** A run no longer than the free places meets no full ring. */
  lemma {:induction false} ShortRunFits(t: Tty, keys: seq<u8>, isig: bool)
    requires Edits(keys, isig) && |t.done| + |t.line| + |keys| < RX_CAP
    ensures NeverFull(t, keys, isig)
    decreases |keys|
  {
    if keys != [] {
      assert Ordinary(keys[0], isig) || Erases(keys[0]) || keys[0] == VKILL;
      ShortRunFits(Feed(t, keys[0], isig), keys[1..], isig);
    }
  }
}
