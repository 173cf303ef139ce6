/** The shell's word splitter and its parser of 8.3 file names. */
module Strings {
  const SPACE := ' '
  const NUL: char := '\0'

  /** A C string's character at i, its terminator included. */
  function CharAt(s: string, i: nat): char
    requires i <= |s|
  {
    if i < |s| then s[i] else NUL
  }

  // ----- words: maximal runs of other characters than spaces

  predicate NoSpace(s: string, a: nat, b: nat)
    requires a <= b <= |s|
  {
    forall k | a <= k < b :: s[k] != SPACE
  }

  /** s[a..b] is a maximal run of non-spaces. */
  predicate IsWord(s: string, a: nat, b: nat) {
    && a < b <= |s| && NoSpace(s, a, b)
    && (a == 0 || s[a - 1] == SPACE) && (b == |s| || s[b] == SPACE)
  }

  predicate StartsWord(s: string, i: nat)
    requires i < |s|
  {
    s[i] != SPACE && (i == 0 || s[i - 1] == SPACE)
  }

  /** The positions below n where words start, in order. */
  function Starts(s: string, n: nat): seq<nat>
    requires n <= |s|
  {
    if n == 0 then [] else Starts(s, n - 1) + if StartsWord(s, n - 1) then [n - 1] else []
  }

  lemma {:induction false} StartsAre(s: string, n: nat)
    requires n <= |s|
    ensures forall k | 0 <= k < |Starts(s, n)| :: Starts(s, n)[k] < n && StartsWord(s, Starts(s, n)[k])
    ensures forall j, k | 0 <= j < k < |Starts(s, n)| :: Starts(s, n)[j] < Starts(s, n)[k]
    ensures forall i | 0 <= i < n && StartsWord(s, i) :: i in Starts(s, n)
  {
    if n > 0 {
      StartsAre(s, n - 1);
    }
  }

  function WordCount(s: string): nat {
    |Starts(s, |s|)|
  }

  /** The first space from i on, or the end. */
  function EndFrom(s: string, i: nat): (e: nat)
    requires i <= |s|
    ensures i <= e <= |s| && (e < |s| ==> s[e] == SPACE) && NoSpace(s, i, e)
    decreases |s| - i
  {
    if i == |s| || s[i] == SPACE then i else EndFrom(s, i + 1)
  }

  function WordStart(s: string, idx: nat): (a: nat)
    requires idx < WordCount(s)
    ensures a < |s| && StartsWord(s, a)
  {
    StartsAre(s, |s|);
    Starts(s, |s|)[idx]
  }

  function WordEnd(s: string, idx: nat): nat
    requires idx < WordCount(s)
  {
    EndFrom(s, WordStart(s, idx))
  }

  /** The word with this index. */
  function WordAt(s: string, idx: nat): string
    requires idx < WordCount(s)
  {
    s[WordStart(s, idx)..WordEnd(s, idx)]
  }

  /** The starts and ends are exactly the bounds of the maximal runs, from left to right. */
  lemma WordsAreRuns(s: string, a: nat, b: nat)
    ensures IsWord(s, a, b) <==> exists idx :: 0 <= idx < WordCount(s) && WordStart(s, idx) == a && WordEnd(s, idx) == b
    ensures forall i, j | 0 <= i < j < WordCount(s) :: WordStart(s, i) < WordStart(s, j)
  {
    StartsAre(s, |s|);
    if IsWord(s, a, b) {
      assert StartsWord(s, a);
      var idx :| 0 <= idx < WordCount(s) && Starts(s, |s|)[idx] == a;
      assert WordStart(s, idx) == a && WordEnd(s, idx) == b;
    }
  }

  lemma StartsStep(s: string, i: nat)
    requires i + 1 < |s|
    ensures Starts(s, i + 2) ==
      if i == 0 && s[0] != SPACE then [0]
      else Starts(s, i + 1) + if s[i] == SPACE && s[i + 1] != SPACE then [i + 1] else []
  {
    assert i == 0 ==> Starts(s, 1) == Starts(s, 0) + if s[0] != SPACE then [0] else [];
  }

  /** countWords is right except on a string of one character that is no space, which it takes to be empty. */
  method CountWords(s: string) returns (n: nat)
    ensures n == WordCount(s) <==> !(|s| == 1 && s[0] != SPACE)
    ensures |s| == 1 ==> n == 0
  {
    n := 0;
    var i := 0;
    while i < |s| - 1
      invariant i == 0 || 0 < i <= |s| - 1
      invariant n == if i == 0 then 0 else |Starts(s, i + 1)|
    {
      StartsStep(s, i);
      if i == 0 && s[i] != SPACE {
        n := n + 1;
      } else if s[i] == SPACE && s[i + 1] != SPACE {
        n := n + 1;
      }
      i := i + 1;
    }
    if |s| == 1 {
      assert Starts(s, 1) == Starts(s, 0) + if s[0] != SPACE then [0] else [];
    }
  }

  /** Where wordLen sees the word end: a space in the very last position escapes it. */
  function SeenEnd(s: string, idx: nat): nat
    requires idx < WordCount(s)
  {
    if WordEnd(s, idx) == |s| - 1 then |s| else WordEnd(s, idx)
  }

  /** A scan that has counted `ctr` words up to i knows the start of word idx once it is counted. */
  predicate StartSeen(s: string, idx: nat, i: nat, ctr: int, start: int)
    requires i < |s|
  {
    && ctr == (if i == 0 then 0 else |Starts(s, i + 1)|)
    && start == if idx < ctr then Starts(s, i + 1)[idx] else -1
  }

  /** One step of the scan for the start of word idx. */
  method CountStart(s: string, idx: nat, i: nat, ctr: int, start: int) returns (ctr': int, start': int)
    requires i + 1 < |s| && StartSeen(s, idx, i, ctr, start)
    ensures StartSeen(s, idx, i + 1, ctr', start')
    ensures start' == start || start' == i + 1 || (i == 0 && start' == 0 && s[0] != SPACE)
    ensures start != -1 ==> start' == start
    ensures start' == -1 || (0 <= start' < i + 2 && StartsWord(s, start'))
  {
    StartsStep(s, i);
    StartsAre(s, i + 2);
    ctr', start' := ctr, start;
    if i == 0 && s[i] != SPACE {
      ctr' := ctr' + 1;
      if ctr' == idx + 1 {
        start' := i;
      }
    } else if s[i] == SPACE && s[i + 1] != SPACE {
      ctr' := ctr' + 1;
      if ctr' == idx + 1 {
        start' := i + 1;
      }
    }
  }

  lemma EndIs(s: string, a: nat, e: nat)
    requires a <= e <= |s| && NoSpace(s, a, e) && (e == |s| || s[e] == SPACE)
    ensures EndFrom(s, a) == e
  {
  }

  method WordLen(s: string, idx: nat) returns (n: nat)
    requires |s| >= 2 && idx < WordCount(s)
    ensures n == SeenEnd(s, idx) - WordStart(s, idx)
  {
    var ctr, start, end := 0, -1, -1;
    for i := 0 to |s| - 1
      invariant StartSeen(s, idx, i, ctr, start)
      invariant start == -1 || (0 <= start <= i && StartsWord(s, start))
      invariant end == -1 ==> start == -1 || NoSpace(s, start, i)
      invariant end != -1 ==> 0 <= start < end < |s| - 1 && s[end] == SPACE && NoSpace(s, start, end)
    {
      if start != -1 && end == -1 && s[i] == SPACE {
        end := i;
      }
      ctr, start := CountStart(s, idx, i, ctr, start);
    }
    assert start == WordStart(s, idx);
    EndIs(s, start, if end != -1 then end else if s[|s| - 1] == SPACE then |s| - 1 else |s|);
    if end == -1 {
      end := |s|;
    }
    n := end - start;
  }

  /** The scan of getWord. */
  method FindStart(s: string, idx: nat) returns (start: int)
    requires |s| >= 2 && idx < WordCount(s)
    ensures start == WordStart(s, idx)
  {
    var ctr := 0;
    start := -1;
    for i := 0 to |s| - 1
      invariant StartSeen(s, idx, i, ctr, start)
    {
      ctr, start := CountStart(s, idx, i, ctr, start);
    }
  }

  /** Copies a piece of a string into the buffer, and a terminator behind it. */
  method CopyOut(piece: string, buf: array<char>)
    requires |piece| < buf.Length
    modifies buf
    ensures buf[..] == piece + [NUL] + old(buf[|piece| + 1..])
  {
    for i := 0 to |piece|
      invariant forall k | 0 <= k < buf.Length :: buf[k] == if k < i then piece[k] else old(buf[k])
    {
      buf[i] := piece[i];
    }
    buf[|piece|] := NUL;
  }

  /** Copies the word with this index into the buffer. */
  method GetWord(s: string, idx: nat, buf: array<char>)
    requires |s| >= 2 && idx < WordCount(s) && SeenEnd(s, idx) - WordStart(s, idx) < buf.Length
    modifies buf
    ensures var n := SeenEnd(s, idx) - WordStart(s, idx);
      buf[..] == s[WordStart(s, idx)..SeenEnd(s, idx)] + [NUL] + old(buf[n + 1..])
  {
    var start := FindStart(s, idx);
    var n := WordLen(s, idx);
    CopyOut(s[start..start + n], buf);
  }

  /** getWord yields the word itself unless the string ends in a single space right behind it. */
  lemma WordIsExact(s: string, idx: nat)
    requires idx < WordCount(s)
    ensures s[WordStart(s, idx)..SeenEnd(s, idx)] == WordAt(s, idx) <==> !(|s| > 0 && WordEnd(s, idx) == |s| - 1)
  {
    if WordEnd(s, idx) == |s| - 1 {
      assert |s[WordStart(s, idx)..SeenEnd(s, idx)]| == |WordAt(s, idx)| + 1;
    }
  }

  // ----- file names

  /** Where the first dot is, or the end. */
  function FirstDot(s: string): (d: nat)
    ensures d <= |s| && (d < |s| ==> s[d] == '.') && forall k | 0 <= k < d :: s[k] != '.'
  {
    if s == "" || s[0] == '.' then 0 else 1 + FirstDot(s[1..])
  }

  function BaseName(s: string): string {
    s[..FirstDot(s)]
  }

  function Extension(s: string): string {
    if FirstDot(s) == |s| then "" else s[FirstDot(s) + 1..]
  }

  function Shorter(a: nat, b: nat): nat {
    if a < b then a else b
  }

  /** The first n characters, filled up with terminators. */
  function Padded(s: string, n: nat): (p: string)
    ensures |p| == n && forall k | 0 <= k < n :: p[k] == if k < |s| then s[k] else NUL
  {
    s[..Shorter(|s|, n)] + seq(n - Shorter(|s|, n), _ => NUL)
  }

  method AddTrailingNull(str: array<char>, start: nat, end: nat)
    requires end <= str.Length
    modifies str
    ensures forall k | 0 <= k < str.Length :: str[k] == if start <= k < end then NUL else old(str[k])
  {
    var i := start;
    while i < end
      invariant start <= i && (i <= end || i == start)
      invariant forall k | 0 <= k < str.Length :: str[k] == if start <= k < i && k < end then NUL else old(str[k])
    {
      str[i] := NUL;
      i := i + 1;
    }
  }

  /** The part of the parser up to the first dot, or the ninth character. */
  method ParseBase(filename: string, name: array<char>) returns (i: nat)
    requires NUL !in filename && name.Length >= 8
    modifies name
    ensures i == Shorter(|BaseName(filename)|, 8)
    ensures name[..8] == Padded(BaseName(filename), 8) && name[8..] == old(name[8..])
  {
    i := 0;
    while i < 8 && CharAt(filename, i) != '.' && CharAt(filename, i) != NUL
      invariant 0 <= i <= 8 && i <= |BaseName(filename)|
      invariant name[..i] == filename[..i] && name[8..] == old(name[8..])
    {
      name[i] := filename[i];
      i := i + 1;
    }
    AddTrailingNull(name, i, 8);
  }

  /** The name and the extension, each in its buffer; 0 when both are short enough, else 1. */
  method ParseFileName(filename: string, name: array<char>, ext: array<char>) returns (code: int)
    requires NUL !in filename && name.Length >= 8 && ext.Length >= 3 && name != ext
    modifies name, ext
    ensures code == if |BaseName(filename)| <= 8 && |Extension(filename)| <= 3 then 0 else 1
    ensures name[..8] == Padded(BaseName(filename), 8) && name[8..] == old(name[8..])
    ensures ext[..3] == if |BaseName(filename)| <= 8 then Padded(Extension(filename), 3) else old(ext[..3])
    ensures ext[3..] == old(ext[3..])
  {
    hide Padded;
    var i := ParseBase(filename, name);
    if CharAt(filename, i) == NUL {
      AddTrailingNull(ext, 0, 3);
      return 0;
    }
    if CharAt(filename, i) != '.' {
      return 1;
    }
    code := ParseExtension(filename, i, ext);
  }

  /** The part of the parser behind the first dot, which is at fnlen. */
  method ParseExtension(filename: string, fnlen: nat, ext: array<char>) returns (code: int)
    requires NUL !in filename && fnlen < |filename| && ext.Length >= 3
    modifies ext
    ensures code == if |filename| - fnlen - 1 <= 3 then 0 else 1
    ensures ext[..3] == Padded(filename[fnlen + 1..], 3) && ext[3..] == old(ext[3..])
  {
    var i := fnlen + 1;
    while i <= fnlen + 3 && CharAt(filename, i) != NUL
      invariant fnlen + 1 <= i <= fnlen + 4 && i <= |filename|
      invariant forall k | 0 <= k < i - fnlen - 1 :: ext[k] == filename[fnlen + 1 + k]
      invariant ext[3..] == old(ext[3..])
    {
      ext[i - fnlen - 1] := filename[i];
      i := i + 1;
    }
    AddTrailingNull(ext, i - fnlen - 1, 3);
    if CharAt(filename, i) != NUL {
      return 1;
    }
    return 0;
  }

  /** A name with its extension, as a user writes it. */
  function Format(n: string, e: string): string {
    if e == "" then n else n + "." + e
  }

  lemma DotAt(s: string, d: nat)
    requires d <= |s| && (d < |s| ==> s[d] == '.') && forall k | 0 <= k < d :: s[k] != '.'
    ensures FirstDot(s) == d
  {
  }

  /** Formatting a name and parsing it again is the identity. */
  lemma FormatThenParse(n: string, e: string)
    requires '.' !in n
    ensures BaseName(Format(n, e)) == n && Extension(Format(n, e)) == e
  {
    DotAt(Format(n, e), |n|);
  }

  /** Accepted are exactly n and n.e with a dot-free n of at most 8 and an e of at most 3 characters. */
  lemma Accepted(s: string)
    ensures |BaseName(s)| <= 8 && |Extension(s)| <= 3 <==>
      exists n, e :: '.' !in n && |n| <= 8 && |e| <= 3 && (s == n + "." + e || (s == n && e == ""))
  {
    var b, x := BaseName(s), Extension(s);
    if FirstDot(s) < |s| {
      assert s == b + "." + x;
    } else {
      assert s == b;
    }
    forall n, e | '.' !in n && |n| <= 8 && |e| <= 3 && (s == n + "." + e || (s == n && e == ""))
      ensures |b| <= 8 && |x| <= 3
    {
      DotAt(s, |n|);
    }
  }
}
