/** Model of `trimwhitespace` in input.c: strip leading and trailing
    C-locale whitespace from a NUL-terminated string held in a caller's
    buffer.  The routine returns a pointer into the buffer (modelled as an
    index) and writes one terminator into the buffer. */
module Trim {

  /** `isspace` in the "C" locale. */
  predicate IsSpace(c: char) {
    c == ' ' || c == '\t' || c == '\n' || c == '\U{B}' || c == '\U{C}' || c == '\r'
  }

  /** The C string that starts at the beginning of `s`: everything before
      the first NUL (all of `s` when there is none). */
  function CString(s: seq<char>): (r: seq<char>)
    ensures |r| <= |s| && r == s[..|r|]
    ensures '\0' !in r
    ensures |r| < |s| ==> s[|r|] == '\0'
  {
    if s == [] || s[0] == '\0' then [] else [s[0]] + CString(s[1..])
  }

  /** `s` with its leading whitespace removed. */
  function TrimLeft(s: seq<char>): seq<char> {
    if s != [] && IsSpace(s[0]) then TrimLeft(s[1..]) else s
  }

  /** `s` with its trailing whitespace removed. */
  function TrimRight(s: seq<char>): seq<char> {
    if s != [] && IsSpace(s[|s| - 1]) then TrimRight(s[..|s| - 1]) else s
  }

  /** What `trimwhitespace` leaves visible at the returned pointer. */
  function Trimmed(s: seq<char>): seq<char> {
    TrimRight(TrimLeft(s))
  }

  lemma {:induction false} TrimLeftSkip(s: seq<char>, k: nat)
    requires k <= |s|
    requires forall j :: 0 <= j < k ==> IsSpace(s[j])
    ensures TrimLeft(s) == TrimLeft(s[k..])
  {
    if k > 0 {
      assert s[1..][k - 1..] == s[k..];
      TrimLeftSkip(s[1..], k - 1);
    }
  }

  lemma {:induction false} TrimRightDrop(s: seq<char>, k: nat)
    requires k <= |s|
    requires forall j :: k <= j < |s| ==> IsSpace(s[j])
    ensures TrimRight(s) == TrimRight(s[..k])
  {
    if k < |s| {
      assert IsSpace(s[|s| - 1]);
      assert s[..|s| - 1][..k] == s[..k];
      TrimRightDrop(s[..|s| - 1], k);
    } else {
      assert s[..k] == s;
    }
  }

  /** The trimmed string is the slice `s[i..j]` of the input, and only
      whitespace lies outside the slice: interior whitespace is kept. */
  lemma {:induction false} TrimmedIsSlice(s: seq<char>)
    ensures exists i, j ::
              && 0 <= i <= j <= |s| && Trimmed(s) == s[i..j]
              && (forall k :: 0 <= k < i ==> IsSpace(s[k]))
              && (forall k :: j <= k < |s| ==> IsSpace(s[k]))
  {
    var i := LeftSlice(s);
    var t := s[i..];
    var j := RightSlice(t);
    assert Trimmed(s) == s[i..i + j];
  }

  lemma {:induction false} LeftSlice(s: seq<char>) returns (i: nat)
    ensures i <= |s| && TrimLeft(s) == s[i..]
    ensures forall k :: 0 <= k < i ==> IsSpace(s[k])
    ensures i < |s| ==> !IsSpace(s[i])
  {
    if s != [] && IsSpace(s[0]) {
      var i' := LeftSlice(s[1..]);
      i := i' + 1;
      assert s[1..][i'..] == s[i..];
    } else {
      i := 0;
    }
  }

  lemma {:induction false} RightSlice(s: seq<char>) returns (j: nat)
    ensures j <= |s| && TrimRight(s) == s[..j]
    ensures forall k :: j <= k < |s| ==> IsSpace(s[k])
    ensures j > 0 ==> !IsSpace(s[j - 1])
  {
    if s != [] && IsSpace(s[|s| - 1]) {
      j := RightSlice(s[..|s| - 1]);
      assert s[..|s| - 1][..j] == s[..j];
    } else {
      j := |s|;
    }
  }

  /** The result neither starts nor ends with whitespace. */
  lemma TrimmedHasNoEdgeSpace(s: seq<char>)
    ensures Trimmed(s) != [] ==> !IsSpace(Trimmed(s)[0]) && !IsSpace(Trimmed(s)[|Trimmed(s)| - 1])
  {
    var i := LeftSlice(s);
    var j := RightSlice(s[i..]);
    assert Trimmed(s) == s[i..][..j];
  }

  /** Trimming an already trimmed string changes nothing. */
  lemma TrimmedIdempotent(s: seq<char>)
    ensures Trimmed(Trimmed(s)) == Trimmed(s)
  {
    var t := Trimmed(s);
    TrimmedHasNoEdgeSpace(s);
    if t != [] {
      assert TrimLeft(t) == t;
      assert TrimRight(t) == t;
    }
  }

  lemma {:induction false} CStringBounded(s: seq<char>)
    requires '\0' in s
    ensures |CString(s)| < |s|
  {
    if s[0] != '\0' {
      assert '\0' in s[1..];
      CStringBounded(s[1..]);
    }
  }

  /** Dropping a prefix of the visible string drops it from the C string. */
  lemma {:induction false} CStringSuffix(s: seq<char>, k: nat)
    requires k <= |CString(s)|
    ensures CString(s[k..]) == CString(s)[k..]
  {
    if k > 0 {
      assert s[1..][k - 1..] == s[k..];
      CStringSuffix(s[1..], k - 1);
    }
  }

  lemma {:induction false} CStringOfTerminated(s: seq<char>, n: nat)
    requires n < |s| && s[n] == '\0' && '\0' !in s[..n]
    ensures CString(s) == s[..n]
  {
    if n > 0 {
      assert s[1..][..n - 1] == s[1..n];
      assert s[0] in s[..n];
      CStringOfTerminated(s[1..], n - 1);
    }
  }

  /** `strlen`: the distance from `from` to the first NUL of the buffer. */
  method StrLen(buf: array<char>, from: nat) returns (n: nat)
    requires from <= buf.Length && '\0' in buf[from..]
    ensures from + n < buf.Length && buf[from + n] == '\0'
    ensures CString(buf[from..]) == buf[from..from + n]
  {
    CStringBounded(buf[from..]);
    ghost var cs := CString(buf[from..]);
    n := 0;
    while buf[from + n] != '\0'
      invariant n <= |cs| && cs[..n] == buf[from..from + n]
      decreases |cs| - n
    {
      n := n + 1;
    }
  }

  /** Skipping `k` leading whitespace characters of a C string leaves the
      C string with its leading whitespace removed. */
  lemma SkippedSpace(s: seq<char>, k: nat)
    requires k <= |CString(s)|
    requires forall j :: 0 <= j < k ==> IsSpace(s[j])
    requires k < |s| && !IsSpace(s[k])
    ensures CString(s[k..]) == TrimLeft(CString(s))
  {
    var cs := CString(s);
    assert forall j :: 0 <= j < k ==> cs[j] == s[j];
    if k < |cs| {
      assert cs[k..][0] == s[k];
    }
    TrimLeftSkip(cs, k);
    CStringSuffix(s, k);
  }

  /** The first half of `trimwhitespace`: advance from `str` past the
      leading whitespace, to the first character that is not whitespace
      (possibly the terminator). */
  method SkipSpace(buf: array<char>, str: nat) returns (res: nat)
    requires str <= buf.Length && '\0' in buf[str..]
    ensures str <= res < buf.Length && !IsSpace(buf[res])
    ensures forall k :: str <= k < res ==> IsSpace(buf[k])
    ensures CString(buf[res..]) == TrimLeft(CString(buf[str..]))
  {
    CStringBounded(buf[str..]);
    ghost var cs := CString(buf[str..]);
    assert buf[str + |cs|] == buf[str..][|cs|] == '\0';
    res := str;
    while IsSpace(buf[res])
      invariant str <= res <= str + |cs|
      invariant forall k :: str <= k < res ==> IsSpace(buf[k])
      decreases str + |cs| - res
    {
      res := res + 1;
    }
    SkippedSpace(buf[str..], res - str);
    assert buf[str..][res - str..] == buf[res..];
  }

  /** `trimwhitespace(buf + str)`: returns the index of the first character
      that is not whitespace and writes a NUL just after the last one. */
  method TrimWhitespace(buf: array<char>, str: nat) returns (res: nat)
    requires str <= buf.Length && '\0' in buf[str..]
    modifies buf
    ensures str <= res < buf.Length
    ensures CString(buf[res..]) == Trimmed(old(CString(buf[str..])))
    ensures forall k :: 0 <= k < buf.Length && k != res + |Trimmed(old(CString(buf[str..])))| ==> buf[k] == old(buf[k])
    ensures forall k :: str <= k < res ==> IsSpace(old(buf[k]))
    ensures !IsSpace(buf[res])
  {
    res := SkipSpace(buf, str);
    if buf[res] == '\0' {
      return;
    }
    CutTrailingSpace(buf, res);
  }

  /** The second half of `trimwhitespace`: `str` points at a character that
      is not whitespace; find the last such character and terminate there. */
  method CutTrailingSpace(buf: array<char>, str: nat)
    requires str < buf.Length && '\0' in buf[str..] && !IsSpace(buf[str]) && buf[str] != '\0'
    modifies buf
    ensures CString(buf[str..]) == TrimRight(old(CString(buf[str..])))
    ensures forall k :: 0 <= k < buf.Length && k != str + |TrimRight(old(CString(buf[str..])))| ==> buf[k] == old(buf[k])
  {
    ghost var t := CString(buf[str..]);
    var n := StrLen(buf, str);
    var end := str + n - 1;
    while end > str && IsSpace(buf[end])
      invariant str <= end < str + n
      invariant forall k :: end < k < str + n ==> IsSpace(buf[k])
    {
      end := end - 1;
    }
    assert forall k :: end - str < k < |t| ==> IsSpace(t[k]) by {
      forall k | end - str < k < |t| ensures IsSpace(t[k]) {
        assert t[k] == buf[str + k];
      }
    }
    TrimRightDrop(t, end + 1 - str);
    assert TrimRight(t[..end + 1 - str]) == t[..end + 1 - str] by {
      assert t[end - str] == buf[end];
    }
    buf[end + 1] := '\0';
    assert buf[str..][..end + 1 - str] == t[..end + 1 - str];
    CStringOfTerminated(buf[str..], end + 1 - str);
  }
}
