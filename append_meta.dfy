/** Model of `append_meta` (space.c): append a C string to the HDF
    structural-metadata buffer at index `ic`, advance `ic` past it and
    terminate the buffer there.  The buffer has MYHDF_MAX_NATTR_VAL
    characters. */
module AppendMeta {

  /** MYHDF_MAX_NATTR_VAL (src/myhdf.h): the size of the metadata buffer. */
  const MaxNattrVal: nat := 3000

  /** The guard as the source writes it: the pointer test `ic < 0` never
      fails, so only an empty string and `ic + nc > MYHDF_MAX_NATTR_VAL`
      are rejected. */
  predicate AcceptedAsWritten(ic: int, nc: nat) {
    nc > 0 && ic + nc <= MaxNattrVal
  }

  /** The guard as intended: a negative index is rejected, and the
      terminator written after the string must still lie in the buffer. */
  predicate Accepted(ic: int, nc: nat) {
    0 <= ic && nc > 0 && ic + nc < MaxNattrVal
  }

  /** Every write of an accepted append, the terminator included, lands
      inside the buffer; and the intended guard differs from the written
      one exactly on a negative index or a string that fills the buffer to
      its last character. */
  lemma AcceptedWritesInBounds(ic: int, nc: nat)
    ensures Accepted(ic, nc) ==> 0 <= ic && ic + nc < MaxNattrVal
    ensures Accepted(ic, nc) <==> AcceptedAsWritten(ic, nc) && ic >= 0 && ic + nc != MaxNattrVal
  {
  }

  /** Two inputs the written guard lets through: appending a whole
      buffer's worth at index 0 puts the terminator at index
      MYHDF_MAX_NATTR_VAL, one past the end, and index -1 writes before the
      start. */
  lemma AsWrittenGuardOverflows()
    ensures AcceptedAsWritten(0, MaxNattrVal) && 0 + MaxNattrVal >= MaxNattrVal
    ensures AcceptedAsWritten(-1, 1) && -1 < 0
    ensures !Accepted(0, MaxNattrVal) && !Accepted(-1, 1)
  {
  }

  /** `append_meta(cbuf, &ic, s)` with the intended guard.  Returns whether
      the string was appended and the new value of `ic`. */
  method Append(cbuf: array<char>, ic: int, s: seq<char>) returns (ok: bool, ic': int)
    requires cbuf.Length == MaxNattrVal && '\0' !in s
    modifies cbuf
    ensures ok <==> Accepted(ic, |s|)
    ensures !ok ==> ic' == ic && cbuf[..] == old(cbuf[..])
    ensures ok ==> ic' == ic + |s| && cbuf[..ic'] == old(cbuf[..ic]) + s && cbuf[ic'] == '\0'
    ensures ok ==> cbuf[ic' + 1..] == old(cbuf[ic' + 1..])
  {
    if ic < 0 || |s| <= 0 || ic + |s| >= MaxNattrVal {
      return false, ic;
    }
    ic' := ic;
    var i := 0;
    while i < |s|
      invariant 0 <= i <= |s| && ic' == ic + i
      invariant cbuf[..ic'] == old(cbuf[..ic]) + s[..i]
      invariant cbuf[ic'..] == old(cbuf[ic'..])
    {
      cbuf[ic'] := s[i];
      assert s[..i + 1] == s[..i] + [s[i]];
      ic' := ic' + 1;
      i := i + 1;
    }
    assert s[..i] == s;
    ghost var written := cbuf[..ic'];
    cbuf[ic'] := '\0';
    assert cbuf[..ic'] == written;
    assert cbuf[ic' + 1..] == old(cbuf[ic' + 1..]) by {
      assert forall t :: ic' + 1 <= t < cbuf.Length ==> cbuf[t] == old(cbuf[t]);
    }
    return true, ic';
  }
}
