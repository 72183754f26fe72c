/** Text as lines. */
module Lines {

  /** The first position of `c`, or the length of `s`. */
  function Find(s: string, c: char): (i: nat)
    ensures i <= |s|
    ensures i < |s| ==> s[i] == c
    ensures forall j :: 0 <= j < i ==> s[j] != c
  {
    if s == [] || s[0] == c then 0 else 1 + Find(s[1..], c)
  }

  lemma FindIs(s: string, c: char, i: nat)
    requires i <= |s| && (i < |s| ==> s[i] == c) && (forall j :: 0 <= j < i ==> s[j] != c)
    ensures Find(s, c) == i
  {}

  /** The lines of a text with n newlines: n + 1 of them, the last possibly empty. */
  function Split(s: string): (lines: seq<string>)
    ensures lines != []
    decreases |s|
  {
    var i := Find(s, '\n');
    if i == |s| then [s] else [s[..i]] + Split(s[i + 1..])
  }

  /** The lines one after the other, with newlines between them. */
  function JoinLines(lines: seq<string>): string
    requires lines != []
  {
    if |lines| == 1 then lines[0] else lines[0] + ['\n'] + JoinLines(lines[1..])
  }

  /** The lines hold no newline, and with newlines between them they are the text. */
  lemma {:induction false} SplitIs(s: string)
    ensures JoinLines(Split(s)) == s
    ensures forall i :: 0 <= i < |Split(s)| ==> '\n' !in Split(s)[i]
    decreases |s|
  {
    var i := Find(s, '\n');
    if i < |s| {
      var rest := Split(s[i + 1..]);
      SplitIs(s[i + 1..]);
      assert Split(s)[0] == s[..i] && Split(s)[1..] == rest;
      assert s == s[..i] + ['\n'] + s[i + 1..];
    }
  }

  /** The text of a NUL-terminated buffer. */
  function Text(s: string): string {
    s[..Find(s, '\0')]
  }

  lemma SliceOfSlice(s: string, a: nat, b: nat, i: nat, j: nat)
    requires a <= b <= |s| && i <= j <= b - a
    ensures s[a..b][i..j] == s[a + i..a + j]
  {
    assert forall k :: 0 <= k < j - i ==> s[a..b][i..j][k] == s[a + i + k] == s[a + i..a + j][k];
  }

  lemma DropOfConcat(s: string, a: nat, b: nat, t: string, i: nat)
    requires a + i <= b <= |s|
    ensures (s[a..b] + t)[i..] == s[a + i..b] + t
  {
    var whole := s[a..b] + t;
    assert forall k :: 0 <= k < |whole| - i ==> whole[i..][k] == whole[i + k] == (s[a + i..b] + t)[k];
  }
}
