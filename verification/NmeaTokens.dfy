/** The comma tokeniser of parseGGA: splitting as mathematics, and in place over a buffer. */
module NmeaTokens {
  import opened Text

  const MAX_FIELDS: nat := 16
  const LINE_BUF_SIZE: nat := 100

  // All pieces between commas, from position i on.
  function SplitFrom(s: string, i: nat): (pieces: seq<string>)
    requires i <= |s|
    ensures |pieces| >= 1
    decreases |s| - i
  {
    var p := IndexOf(s, ',', i);
    if p == |s| then [s[i..]] else [s[i..p]] + SplitFrom(s, p + 1)
  }

  // At most n pieces from position i on, the last one unsplit.
  function SplitAtMost(s: string, i: nat, n: nat): (pieces: seq<string>)
    requires i <= |s| && n >= 1
    ensures 1 <= |pieces| <= n
    decreases n
  {
    var p := IndexOf(s, ',', i);
    if n == 1 || p == |s| then [s[i..]] else [s[i..p]] + SplitAtMost(s, p + 1, n - 1)
  }

  function Split(s: string): seq<string> {
    SplitFrom(s, 0)
  }

  function Fields(s: string): seq<string> {
    SplitAtMost(s, 0, MAX_FIELDS)
  }

  function Join(pieces: seq<string>): string
    requires |pieces| >= 1
  {
    if |pieces| == 1 then pieces[0] else pieces[0] + "," + Join(pieces[1..])
  }

  // ---- Splitting and joining are inverse

  predicate AllFree(pieces: seq<string>) {
    forall k :: 0 <= k < |pieces| ==> Free(pieces[k], ',')
  }

  lemma NoComma(s: string, i: nat)
    requires i <= |s| && IndexOf(s, ',', i) == |s|
    ensures SplitFrom(s, i) == [s[i..]] && Join(SplitFrom(s, i)) == s[i..] && AllFree(SplitFrom(s, i))
  {
  }

  lemma FirstPiece(s: string, i: nat)
    requires i <= |s| && IndexOf(s, ',', i) < |s|
    ensures var p := IndexOf(s, ',', i);
            s[p] == ',' && Free(s[i..p], ',') && SplitFrom(s, i) == [s[i..p]] + SplitFrom(s, p + 1)
  {
  }

  lemma FreeCons(head: string, rest: seq<string>)
    requires Free(head, ',') && AllFree(rest)
    ensures AllFree([head] + rest)
  {
    hide Free;
  }

  lemma AroundComma(s: string, i: nat, p: nat)
    requires i <= p < |s| && s[p] == ','
    ensures s[i..] == s[i..p] + "," + s[p + 1..]
  {
  }

  lemma JoinCons(head: string, rest: seq<string>)
    requires |rest| >= 1
    ensures Join([head] + rest) == head + "," + Join(rest)
  {
    assert ([head] + rest)[1..] == rest;
  }

  lemma {:induction false} SplitJoins(s: string, i: nat)
    requires i <= |s|
    ensures Join(SplitFrom(s, i)) == s[i..]
    ensures AllFree(SplitFrom(s, i))
    decreases |s| - i
  {
    var p := IndexOf(s, ',', i);
    if p == |s| {
      NoComma(s, i);
    } else {
      FirstPiece(s, i);
      hide SplitFrom, Join, AllFree, Free;
      var head, rest := s[i..p], SplitFrom(s, p + 1);
      SplitJoins(s, p + 1);
      JoinCons(head, rest);
      FreeCons(head, rest);
      AroundComma(s, i, p);
    }
  }

  lemma SplitHead(s: string, i: nat, head: string)
    requires i + |head| < |s| && s[i..i + |head|] == head && s[i + |head|] == ',' && Free(head, ',')
    ensures SplitFrom(s, i) == [head] + SplitFrom(s, i + |head| + 1)
  {
    assert forall k :: i <= k < i + |head| ==> s[k] == head[k - i];
    IndexOfUnique(s, ',', i, i + |head|);
  }

  lemma SplitLast(s: string, i: nat)
    requires i <= |s| && Free(s[i..], ',')
    ensures SplitFrom(s, i) == [s[i..]]
  {
    assert forall k :: i <= k < |s| ==> s[k] == s[i..][k - i];
    IndexOfUnique(s, ',', i, |s|);
  }

  lemma {:induction false} JoinSplits(prefix: string, pieces: seq<string>)
    requires |pieces| >= 1 && AllFree(pieces)
    ensures SplitFrom(prefix + Join(pieces), |prefix|) == pieces
    decreases |pieces|
  {
    hide SplitFrom;
    var s, head := prefix + Join(pieces), pieces[0];
    if |pieces| == 1 {
      assert s[|prefix|..] == head;
      SplitLast(s, |prefix|);
    } else {
      var rest, longer := pieces[1..], prefix + head + ",";
      JoinSplits(longer, rest);
      JoinCons(head, rest);
      assert [head] + rest == pieces;
      assert s == longer + Join(rest);
      assert s[|prefix|..|prefix| + |head|] == head;
      SplitHead(s, |prefix|, head);
    }
  }

  // Splitting is the one way to write a line as comma-free pieces.
  lemma SplitUnique(pieces: seq<string>)
    requires |pieces| >= 1 && AllFree(pieces)
    ensures Split(Join(pieces)) == pieces
  {
    JoinSplits("", pieces);
    assert "" + Join(pieces) == Join(pieces);
  }

  lemma ConsPrefix(head: string, all: seq<string>, some: seq<string>)
    requires 1 <= |some| <= |all| && some[..|some| - 1] == all[..|some| - 1]
    ensures ([head] + some)[..|some|] == ([head] + all)[..|some|]
    ensures ([head] + all)[|some|..] == all[|some| - 1..]
  {
    assert ([head] + some)[..|some|] == [head] + some[..|some| - 1];
    assert ([head] + all)[..|some|] == [head] + all[..|some| - 1];
  }

  // The bounded split agrees with the full split on every field but the last, and the last field
  // is the rest of the line with its commas.
  lemma {:induction false} SplitAtMostIsPrefix(s: string, i: nat, n: nat)
    requires i <= |s| && n >= 1
    ensures var all, some := SplitFrom(s, i), SplitAtMost(s, i, n);
            && |some| == (if |all| < n then |all| else n)
            && some[..|some| - 1] == all[..|some| - 1]
            && some[|some| - 1] == Join(all[|some| - 1..])
    decreases n
  {
    hide Join;
    var p := IndexOf(s, ',', i);
    var all := SplitFrom(s, i);
    if n > 1 && p < |s| {
      var head, rest, some := s[i..p], SplitFrom(s, p + 1), SplitAtMost(s, p + 1, n - 1);
      assert all == [head] + rest && SplitAtMost(s, i, n) == [head] + some;
      hide SplitFrom, SplitAtMost;
      SplitAtMostIsPrefix(s, p + 1, n - 1);
      ConsPrefix(head, rest, some);
    } else {
      assert SplitAtMost(s, i, n) == [s[i..]];
      hide SplitFrom, SplitAtMost;
      SplitJoins(s, i);
      assert all[0..] == all;
    }
  }

  lemma MergedTail(all: seq<string>, some: seq<string>, n: nat, tail: string)
    requires |some| == n + 1 <= |all|
    requires some[..n] == all[..n] && some[n] == tail
    ensures some == all[..n] + [tail]
    ensures forall k :: 0 <= k < n ==> some[k] == all[k]
    ensures |some| == |all| && tail == all[n] ==> some == all
  {
    forall k | 0 <= k < n ensures some[k] == all[k] {
      assert some[..n][k] == all[..n][k];
    }
  }

  lemma LastOnly(all: seq<string>)
    requires |all| >= 1
    ensures Join(all[|all| - 1..]) == all[|all| - 1]
  {
  }

  // Joining the tail first does not change the joined line.
  lemma {:induction false} JoinPrefix(pieces: seq<string>, n: nat)
    requires n < |pieces|
    ensures Join(pieces[..n] + [Join(pieces[n..])]) == Join(pieces)
  {
    if n == 0 {
      assert pieces[0..] == pieces && pieces[..0] + [Join(pieces)] == [Join(pieces)];
    } else {
      var rest := pieces[1..];
      JoinPrefix(rest, n - 1);
      assert rest[n - 1..] == pieces[n..];
      var shorter := pieces[..n] + [Join(pieces[n..])];
      assert shorter[1..] == rest[..n - 1] + [Join(rest[n - 1..])];
    }
  }

  lemma FieldsOfLine(s: string)
    ensures Join(Fields(s)) == s
    ensures |Fields(s)| == (if |Split(s)| < MAX_FIELDS then |Split(s)| else MAX_FIELDS)
    ensures forall k :: 0 <= k < |Fields(s)| - 1 ==> Fields(s)[k] == Split(s)[k] && Free(Fields(s)[k], ',')
    ensures |Split(s)| <= MAX_FIELDS ==> Fields(s) == Split(s)
    ensures |Split(s)| > MAX_FIELDS ==> Fields(s)[MAX_FIELDS - 1] == Join(Split(s)[MAX_FIELDS - 1..])
  {
    SplitAtMostIsPrefix(s, 0, MAX_FIELDS);
    SplitJoins(s, 0);
    assert s[0..] == s;
    var all, some := Split(s), Fields(s);
    var n := |some| - 1;
    JoinPrefix(all, n);
    MergedTail(all, some, n, Join(all[n..]));
    LastOnly(all);
  }

  // ---- In place

  // The buffer holds the piece at the given position, followed by a NUL.
  ghost predicate Placed(b: string, at: nat, piece: string) {
    at + |piece| < |b| && b[at..at + |piece|] == piece && b[at + |piece|] == '\0' && Free(piece, '\0')
  }

  lemma PlacedBelow(b: string, i: nat, c: char, at: nat, piece: string)
    requires Placed(b, at, piece) && at + |piece| < i < |b|
    ensures Placed(b[i := c], at, piece)
  {
    assert b[i := c][at..at + |piece|] == b[at..at + |piece|];
  }

  // What is left to split after the first n fields is the text from position start on.
  ghost predicate LeftToSplit(fields: seq<string>, n: nat, s: string, start: nat) {
    && n < |fields| && n < MAX_FIELDS && start <= |s|
    && fields[n..] == SplitAtMost(s, start, MAX_FIELDS - n)
  }

  lemma LeftAfterComma(fields: seq<string>, n: nat, s: string, start: nat, i: nat)
    requires LeftToSplit(fields, n, s, start) && n + 1 < MAX_FIELDS
    requires start <= i < |s| && s[i] == ',' && forall k :: start <= k < i ==> s[k] != ','
    ensures fields[n] == s[start..i] && LeftToSplit(fields, n + 1, s, i + 1)
  {
    IndexOfUnique(s, ',', start, i);
    var rest := SplitAtMost(s, i + 1, MAX_FIELDS - n - 1);
    assert fields[n..] == [s[start..i]] + rest;
    assert fields[n] == fields[n..][0];
    assert fields[n + 1..] == fields[n..][1..] == rest;
  }

  lemma LeftAtEnd(fields: seq<string>, n: nat, s: string, start: nat, i: nat)
    requires LeftToSplit(fields, n, s, start)
    requires start <= i <= |s| && forall k :: start <= k < i ==> s[k] != ','
    requires i == |s| || n + 1 == MAX_FIELDS
    ensures |fields| == n + 1 && fields[n] == s[start..]
  {
    if i == |s| {
      IndexOfUnique(s, ',', start, i);
    }
    assert fields[n..] == [s[start..]];
    assert fields[n] == fields[n..][0];
  }

  // The scratch buffer at position i of the loop: b holds the first n fields before position
  // start, each with its NUL, and the untouched text from start on.
  ghost predicate Cut(b: string, s: string, fields: seq<string>, starts: seq<nat>, n: nat, start: nat, i: nat) {
    && n == |starts| < |fields|
    && start <= i <= |s| < |b|
    && (forall k :: start <= k < |s| && i <= k ==> b[k] == s[k])
    && b[start..i] == s[start..i]
    && b[|s|] == '\0' && Free(s, '\0')
    && (forall k :: start <= k < i ==> s[k] != ',')
    && (forall k :: 0 <= k < n ==> starts[k] + |fields[k]| < start && Placed(b, starts[k], fields[k]))
  }

  lemma CutReads(b: string, s: string, fields: seq<string>, starts: seq<nat>, n: nat, start: nat, i: nat)
    requires Cut(b, s, fields, starts, n, start, i)
    ensures n == |starts| < |fields| && start <= i <= |s| < |b| && (i < |s| ==> b[i] == s[i])
    ensures forall k :: start <= k < i ==> s[k] != ','
  {
  }

  lemma CutSkip(b: string, s: string, fields: seq<string>, starts: seq<nat>, n: nat, start: nat, i: nat)
    requires Cut(b, s, fields, starts, n, start, i) && i < |s| && b[i] != ','
    ensures Cut(b, s, fields, starts, n, start, i + 1)
  {
    assert b[start..i + 1] == b[start..i] + [b[i]];
    assert s[start..i + 1] == s[start..i] + [s[i]];
  }

  lemma CutComma(b: string, s: string, fields: seq<string>, starts: seq<nat>, n: nat, start: nat, i: nat)
    requires Cut(b, s, fields, starts, n, start, i) && i < |s| && b[i] == ','
    requires n + 1 < |fields| && fields[n] == s[start..i]
    ensures Cut(b[i := '\0'], s, fields, starts + [start], n + 1, i + 1, i + 1)
  {
    var b', starts' := b[i := '\0'], starts + [start];
    assert b'[start..i] == b[start..i];
    assert Placed(b', start, fields[n]);
    forall k | 0 <= k < n + 1 ensures starts'[k] + |fields[k]| < i + 1 && Placed(b', starts'[k], fields[k]) {
      if k < n {
        PlacedBelow(b, i, '\0', starts[k], fields[k]);
      }
    }
  }

  lemma CutEnd(b: string, s: string, fields: seq<string>, starts: seq<nat>, n: nat, start: nat, i: nat)
    requires Cut(b, s, fields, starts, n, start, i)
    requires fields[n] == s[start..]
    ensures forall k :: 0 <= k < n ==> Terminated(b, starts[k]) && CString(b, starts[k]) == fields[k]
    ensures Terminated(b, start) && CString(b, start) == fields[n]
  {
    forall k | 0 <= k < n ensures Terminated(b, starts[k]) && CString(b, starts[k]) == fields[k] {
      CStringIs(b, starts[k], fields[k]);
    }
    assert b[start..|s|] == b[start..i] + b[i..|s|] && s[start..] == s[start..i] + s[i..];
    assert b[i..|s|] == s[i..];
    CStringIs(b, start, fields[n]);
  }

  // The first two loops of parseGGA: copy the line, with its terminator, into the scratch buffer.
  method CopyLine(line: array<char>, scratch: array<char>) returns (copyLen: nat)
    requires line.Length == LINE_BUF_SIZE && scratch.Length == LINE_BUF_SIZE && line != scratch
    requires Terminated(line[..], 0)
    modifies scratch
    ensures copyLen == |CString(line[..], 0)| < LINE_BUF_SIZE && Free(CString(line[..], 0), '\0')
    ensures scratch[..copyLen] == CString(line[..], 0) && scratch[copyLen] == '\0'
  {
    ghost var s := CString(line[..], 0);
    BufferReads(line, 0);
    var lineLen := 0;
    while line[lineLen] != '\0' && lineLen < LINE_BUF_SIZE
      invariant lineLen <= |s|
      decreases |s| - lineLen
    {
      lineLen := lineLen + 1;
    }
    copyLen := if lineLen < LINE_BUF_SIZE - 1 then lineLen else LINE_BUF_SIZE - 1;
    var i := 0;
    while i < copyLen
      invariant i <= copyLen && scratch[..i] == s[..i]
      invariant line[..] == old(line[..])
    {
      scratch[i] := line[i];
      i := i + 1;
    }
    scratch[copyLen] := '\0';
  }

  // The tokeniser loop: every comma of the first fifteen becomes a NUL, and fields receives the
  // positions in scratch where the fields start.
  method CutFields(scratch: array<char>, fields: array<nat>, copyLen: nat, ghost s: string, ghost pieces: seq<string>)
    returns (count: nat)
    requires fields.Length == MAX_FIELDS && copyLen == |s| < scratch.Length
    requires Cut(scratch[..], s, pieces, [], 0, 0, 0) && LeftToSplit(pieces, 0, s, 0)
    modifies scratch, fields
    ensures count == |pieces| <= MAX_FIELDS
    ensures forall k :: 0 <= k < count ==>
              Terminated(scratch[..], fields[k]) && CString(scratch[..], fields[k]) == pieces[k]
  {
    hide Cut, LeftToSplit, Terminated, CString;
    fields[0], count := 0, 1;
    ghost var b, starts: seq<nat>, n, start := scratch[..], [], 0, 0;
    var i := 0;
    while i < copyLen && count < MAX_FIELDS
      invariant i <= copyLen && n == count - 1 == |starts| < MAX_FIELDS && scratch[..] == b
      invariant Cut(b, s, pieces, starts, n, start, i)
      invariant LeftToSplit(pieces, n, s, start)
      invariant fields[n] == start && forall k :: 0 <= k < n ==> fields[k] == starts[k]
    {
      CutReads(b, s, pieces, starts, n, start, i);
      assert scratch[i] == b[i];
      if scratch[i] == ',' {
        LeftAfterComma(pieces, n, s, start, i);
        CutComma(b, s, pieces, starts, n, start, i);
        scratch[i] := '\0';
        fields[count] := i + 1;
        count := count + 1;
        b, starts, n, start := b[i := '\0'], starts + [start], n + 1, i + 1;
      } else {
        CutSkip(b, s, pieces, starts, n, start, i);
      }
      i := i + 1;
    }
    CutReads(b, s, pieces, starts, n, start, i);
    LeftAtEnd(pieces, n, s, start, i);
    CutEnd(b, s, pieces, starts, n, start, i);
  }

  lemma CutStart(b: string, s: string)
    requires |s| < |b| && b[|s|] == '\0' && Free(s, '\0') && forall k :: 0 <= k < |s| ==> b[k] == s[k]
    ensures Cut(b, s, Fields(s), [], 0, 0, 0) && LeftToSplit(Fields(s), 0, s, 0)
  {
    assert Fields(s)[0..] == Fields(s);
  }

  method Tokenise(line: array<char>, scratch: array<char>) returns (fields: array<nat>, count: nat)
    requires line.Length == LINE_BUF_SIZE && scratch.Length == LINE_BUF_SIZE && line != scratch
    requires Terminated(line[..], 0)
    modifies scratch
    ensures fresh(fields) && fields.Length == MAX_FIELDS
    ensures count == |Fields(CString(line[..], 0))| <= MAX_FIELDS
    ensures forall k :: 0 <= k < count ==>
              Terminated(scratch[..], fields[k]) && CString(scratch[..], fields[k]) == Fields(CString(line[..], 0))[k]
  {
    ghost var s := CString(line[..], 0);
    var copyLen := CopyLine(line, scratch);
    fields := new nat[MAX_FIELDS];
    assert forall k :: 0 <= k < copyLen ==> scratch[..][k] == scratch[..copyLen][k];
    CutStart(scratch[..], s);
    count := CutFields(scratch, fields, copyLen, s, Fields(s));
  }
}
