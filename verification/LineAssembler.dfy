/** The byte-at-a-time line assembler shared by the GPS receiver and the LoRa poller: CR is
    dropped, LF ends a line, and a full buffer is thrown away together with the byte that found it full. */
module LineAssembler {
  import opened MachineWords
  import opened Text

  datatype Event = Line(text: string) | Overrun(length: nat)

  // What the assembler holds, and what it reported.
  datatype Outcome = Outcome(buffer: string, events: seq<Event>)

  // One received byte; size counts the buffer's terminator.
  function Step(size: nat, buffer: string, c: char): (o: Outcome)
    requires size >= 1
    ensures |buffer| < size ==> |o.buffer| < size
  {
    if c == '\n' then Outcome("", [Line(buffer)])
    else if c == '\r' then Outcome(buffer, [])
    else if |buffer| < size - 1 then Outcome(buffer + [c], [])
    else Outcome("", [Overrun(|buffer|)])
  }

  function Feed(size: nat, buffer: string, s: string): (o: Outcome)
    requires size >= 1
    ensures |buffer| < size ==> |o.buffer| < size
  {
    if s == "" then Outcome(buffer, [])
    else
      var before := Feed(size, buffer, s[..|s| - 1]);
      var now := Step(size, before.buffer, s[|s| - 1]);
      Outcome(now.buffer, before.events + now.events)
  }

  // The bytes that are stored: everything but CR.
  function Stored(s: string): string {
    if s == "" then ""
    else Stored(s[..|s| - 1]) + (if s[|s| - 1] == '\r' then "" else [s[|s| - 1]])
  }

  function Repeat(e: Event, n: nat): (es: seq<Event>)
    ensures |es| == n && forall k :: 0 <= k < n ==> es[k] == e
  {
    if n == 0 then [] else Repeat(e, n - 1) + [e]
  }

  // Feeding two pieces is feeding their concatenation: how a stream is cut makes no difference.
  lemma {:induction false} FeedConcat(size: nat, buffer: string, s: string, t: string)
    requires size >= 1
    ensures var first := Feed(size, buffer, s);
            var second := Feed(size, first.buffer, t);
            Feed(size, buffer, s + t) == Outcome(second.buffer, first.events + second.events)
  {
    var first := Feed(size, buffer, s);
    if t == "" {
      assert s + t == s && first.events + [] == first.events;
    } else {
      var t', c := t[..|t| - 1], t[|t| - 1];
      FeedConcat(size, buffer, s, t');
      assert (s + t)[..|s + t| - 1] == s + t';
      var second := Feed(size, first.buffer, t');
      var now := Step(size, second.buffer, c);
      assert (first.events + second.events) + now.events == first.events + (second.events + now.events);
    }
  }

  lemma FeedByte(size: nat, buffer: string, c: char)
    requires size >= 1
    ensures Feed(size, buffer, [c]) == Step(size, buffer, c) && |Step(size, buffer, c).events| <= 1
  {
    assert [c][..0] == "" && Feed(size, buffer, "") == Outcome(buffer, []);
    var now := Step(size, buffer, c);
    assert [] + now.events == now.events;
  }

  lemma DivModSuccessor(n: nat, size: nat)
    requires size >= 1
    ensures n % size < size
    ensures n % size < size - 1 ==> (n + 1) / size == n / size && (n + 1) % size == n % size + 1
    ensures n % size == size - 1 ==> (n + 1) / size == n / size + 1 && (n + 1) % size == 0
  {
    var q, r := n / size, n % size;
    if r < size - 1 {
      DivModUnique(n + 1, size, q, r + 1);
    } else {
      assert (q + 1) * size == q * size + size;
      DivModUnique(n + 1, size, q + 1, 0);
    }
  }

  // After n stored bytes without a newline there were n/size overruns, each of size - 1 bytes, and
  // the buffer holds the last n % size of them.
  lemma {:induction false} ClosedForm(size: nat, s: string)
    requires size >= 1 && Free(s, '\n')
    ensures var t := Stored(s);
            && |t| % size <= |t|
            && Feed(size, "", s) == Outcome(t[|t| - |t| % size..], Repeat(Overrun(size - 1), |t| / size))
  {
    if s == "" {
      DivModUnique(0, size, 0, 0);
    } else {
      var s', c := s[..|s| - 1], s[|s| - 1];
      ClosedForm(size, s');
      var t := Stored(s');
      if c != '\r' {
        DivModSuccessor(|t|, size);
        assert Stored(s) == t + [c];
        assert (t + [c])[|t| - |t| % size..] == t[|t| - |t| % size..] + [c];
      }
    }
  }

  // A line of any length: its overruns, then what is left of it.
  lemma LineOutcome(size: nat, s: string)
    requires size >= 1 && Free(s, '\n')
    ensures var t := Stored(s);
            && |t| % size <= |t|
            && Feed(size, "", s + "\n") ==
               Outcome("", Repeat(Overrun(size - 1), |t| / size) + [Line(t[|t| - |t| % size..])])
  {
    ClosedForm(size, s);
    assert (s + "\n")[..|s|] == s;
  }

  // Every stream is read line by line: the lines before a newline do not influence those after it.
  lemma FeedLine(size: nat, s: string, rest: string)
    requires size >= 1 && Free(s, '\n')
    ensures Feed(size, "", s + "\n" + rest) ==
            Outcome(Feed(size, "", rest).buffer, Feed(size, "", s + "\n").events + Feed(size, "", rest).events)
  {
    LineOutcome(size, s);
    FeedConcat(size, "", s + "\n", rest);
  }

  // Resynchronisation: after any history, the first newline empties the buffer and the next line
  // that fits is delivered whole.
  lemma Resynchronises(size: nat, buffer: string, history: string, s: string)
    requires size >= 1 && Free(s, '\n') && |Stored(s)| < size
    ensures var before := Feed(size, buffer, history + "\n");
            && before.buffer == ""
            && Feed(size, buffer, history + "\n" + s + "\n") == Outcome("", before.events + [Line(Stored(s))])
  {
    assert (history + "\n")[..|history|] == history;
    var t := Stored(s);
    DivModUnique(|t|, size, 0, |t|);
    LineOutcome(size, s);
    assert t[0..] == t;
    assert history + "\n" + s + "\n" == (history + "\n") + (s + "\n");
    FeedConcat(size, buffer, history + "\n", s + "\n");
  }

  lemma {:induction false} StoredPlain(s: string)
    requires Free(s, '\r')
    ensures Stored(s) == s && Stored(s + "\r") == s
  {
    assert (s + "\r")[..|s|] == s;
    if s != "" {
      StoredPlain(s[..|s| - 1]);
    }
  }

  lemma StoredSnoc(s: string, c: char)
    ensures Stored(s + [c]) == Stored(s) + (if c == '\r' then "" else [c])
  {
    assert (s + [c])[..|s|] == s;
  }

  lemma {:induction false} StoredConcat(s: string, t: string)
    ensures Stored(s + t) == Stored(s) + Stored(t)
    decreases |t|
  {
    if t == "" {
      assert s + t == s;
    } else {
      var t', c := t[..|t| - 1], t[|t| - 1];
      StoredConcat(s, t');
      StoredSnoc(s + t', c);
      StoredSnoc(t', c);
      assert t == t' + [c] && s + t == (s + t') + [c];
      hide Stored;
      var now := if c == '\r' then "" else [c];
      assert (Stored(s) + Stored(t')) + now == Stored(s) + (Stored(t') + now);
    }
  }

  lemma FeedSnoc(size: nat, buffer: string, s: string, c: char)
    requires size >= 1
    ensures var before := Feed(size, buffer, s);
            var now := Step(size, before.buffer, c);
            Feed(size, buffer, s + [c]) == Outcome(now.buffer, before.events + now.events)
  {
    hide Step;
    assert (s + [c])[..|s|] == s;
  }

  // A piece that fits is appended to whatever the buffer held.
  lemma {:induction false} FeedFits(size: nat, buffer: string, s: string)
    requires size >= 1 && Free(s, '\n') && |buffer| + |Stored(s)| < size
    ensures Feed(size, buffer, s) == Outcome(buffer + Stored(s), [])
    decreases |s|
  {
    if s == "" {
      assert buffer + Stored(s) == buffer;
    } else {
      var s', c := s[..|s| - 1], s[|s| - 1];
      assert s == s' + [c];
      StoredSnoc(s', c);
      FeedSnoc(size, buffer, s', c);
      hide Feed, Stored;
      FeedFits(size, buffer, s');
      var now := if c == '\r' then "" else [c];
      assert (buffer + Stored(s')) + now == buffer + (Stored(s') + now);
    }
  }

  // What is stored holds no CR, and a newline only if the text did.
  lemma {:induction false} StoredIsClean(s: string)
    ensures Free(Stored(s), '\r') && (Free(s, '\n') ==> Free(Stored(s), '\n'))
  {
    if s != "" {
      StoredIsClean(s[..|s| - 1]);
    }
  }

  // What a buffer of the given size may hold between two bytes.
  predicate Bufferable(size: nat, t: string) {
    |t| < size && Free(t, '\n') && Free(t, '\r')
  }

  lemma {:induction false} FeedBufferable(size: nat, buffer: string, s: string)
    requires size >= 1 && Bufferable(size, buffer)
    ensures Bufferable(size, Feed(size, buffer, s).buffer)
    decreases |s|
  {
    if s != "" {
      var s', c := s[..|s| - 1], s[|s| - 1];
      FeedBufferable(size, buffer, s');
      assert s == s' + [c];
      FeedSnoc(size, buffer, s', c);
      hide Feed;
    }
  }

  // A buffer's contents act as text received just before.
  lemma FeedPrefix(size: nat, t: string, s: string)
    requires size >= 1 && Bufferable(size, t)
    ensures Feed(size, t, s) == Feed(size, "", t + s)
  {
    StoredPlain(t);
    assert "" + t == t;
    FeedFits(size, "", t);
    hide Feed, Stored;
    FeedConcat(size, "", t, s);
    assert [] + Feed(size, t, s).events == Feed(size, t, s).events;
  }
}
