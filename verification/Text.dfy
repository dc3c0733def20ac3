/** Searching text, and NUL-terminated strings inside a character buffer. */
module Text {
  // The index of the first c at or after position i, or |s|.
  function IndexOf(s: string, c: char, i: nat): (p: nat)
    requires i <= |s|
    ensures i <= p <= |s|
    ensures forall k :: i <= k < p ==> s[k] != c
    ensures p < |s| ==> s[p] == c
    decreases |s| - i
  {
    if i == |s| || s[i] == c then i else IndexOf(s, c, i + 1)
  }

  lemma IndexOfUnique(s: string, c: char, i: nat, p: nat)
    requires i <= p <= |s| && (forall k :: i <= k < p ==> s[k] != c)
    requires p < |s| ==> s[p] == c
    ensures IndexOf(s, c, i) == p
  {
  }

  // s has no c.
  predicate Free(s: string, c: char) {
    forall k :: 0 <= k < |s| ==> s[k] != c
  }

  lemma FreeConcat(a: string, b: string, c: char)
    ensures Free(a + b, c) <==> Free(a, c) && Free(b, c)
  {
    if Free(a + b, c) {
      assert forall k :: 0 <= k < |a| ==> a[k] == (a + b)[k];
      assert forall k :: 0 <= k < |b| ==> b[k] == (a + b)[|a| + k];
    }
  }

  // The pieces of a stream, one after the other.
  function Concat(pieces: seq<string>): string {
    if pieces == [] then "" else pieces[0] + Concat(pieces[1..])
  }

  // What a const char* to position i of the buffer b denotes.
  function CString(b: string, i: nat): string
    requires i <= |b|
  {
    b[i..IndexOf(b, '\0', i)]
  }

  // A NUL lies at or after position i, so scanning from i stays inside the buffer.
  predicate Terminated(b: string, i: nat) {
    i <= |b| && IndexOf(b, '\0', i) < |b|
  }

  // Position i of a NUL-terminated string: its terminator is readable too.
  function At(s: string, i: nat): char
    requires i <= |s|
  {
    if i < |s| then s[i] else '\0'
  }

  lemma CStringIs(b: string, i: nat, s: string)
    requires i + |s| < |b| && b[i..i + |s|] == s && b[i + |s|] == '\0' && Free(s, '\0')
    ensures Terminated(b, i) && CString(b, i) == s
  {
    assert forall k :: i <= k < i + |s| ==> b[k] == b[i..i + |s|][k - i];
    IndexOfUnique(b, '\0', i, i + |s|);
  }

  // A received line as a C string: up to its first NUL, if a NUL byte was received.
  function UpToNul(line: string): string {
    line[..IndexOf(line, '\0', 0)]
  }

  // The line buffer with its NUL denotes the line up to its first NUL byte.
  lemma TerminatedLine(b: string, line: string)
    requires |line| < |b| && b[..|line|] == line && b[|line|] == '\0'
    ensures Terminated(b, 0) && CString(b, 0) == UpToNul(line)
  {
    var p := IndexOf(line, '\0', 0);
    assert forall k :: 0 <= k < |line| ==> b[k] == line[k];
    IndexOfUnique(b, '\0', 0, p);
    assert b[0..p] == line[..p];
  }

  // Every read from a string's start up to its terminator is inside the buffer.
  lemma BufferReads(b: array<char>, at: nat)
    requires Terminated(b[..], at)
    ensures var s := CString(b[..], at);
            && at + |s| < b.Length && Free(s, '\0')
            && forall j :: at <= j <= at + |s| ==> b[j] == At(s, j - at)
  {
    var s := CString(b[..], at);
    forall j | at <= j <= at + |s| ensures b[j] == At(s, j - at) {
      assert b[j] == b[..][j];
    }
  }
}
