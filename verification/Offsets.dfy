/** Byte offsets into strings. */
module Offsets {
  import opened Wrappers
  import opened Utf8

  /** The length of the UTF-8 encoding. */
  function ByteLen(s: string): (n: nat)
    ensures n >= |s|
  {
    if s == "" then 0 else ByteLen(s[..|s| - 1]) + Width(s[|s| - 1])
  }

  lemma {:induction false} ByteLenConcat(s: string, t: string)
    ensures ByteLen(s + t) == ByteLen(s) + ByteLen(t)
  {
    if t == "" {
      assert s + t == s;
    } else {
      assert (s + t)[..|s + t| - 1] == s + t[..|t| - 1];
      ByteLenConcat(s, t[..|t| - 1]);
    }
  }

  lemma ByteLenSplit(s: string, i: nat, j: nat)
    requires i <= j <= |s|
    ensures ByteLen(s[..j]) == ByteLen(s[..i]) + ByteLen(s[i..j]) && ByteLen(s[i..j]) >= j - i
  {
    assert s[..j] == s[..i] + s[i..j];
    ByteLenConcat(s[..i], s[i..j]);
  }

  lemma ByteLenStep(s: string, i: nat, j: nat)
    requires i <= j < |s|
    ensures ByteLen(s[i..j + 1]) == ByteLen(s[i..j]) + Width(s[j])
  {
    assert s[i..j + 1][..j - i] == s[i..j] && s[i..j + 1][j - i] == s[j];
  }

  /** The number of characters before a byte offset, if it falls between characters. */
  function IndexAt(s: string, offset: nat): (r: Option<nat>)
    ensures r.Some? ==> r.value <= |s|
  {
    if offset == 0 then Some(0)
    else if s == "" || offset < Width(s[0]) then None
    else
      match IndexAt(s[1..], offset - Width(s[0]))
      case Some(i) => Some(i + 1)
      case None => None
  }

  /** An offset is a character boundary exactly when it is the length of a prefix. */
  lemma {:induction false} IndexAtSound(s: string, offset: nat)
    ensures IndexAt(s, offset).Some? ==> ByteLen(s[..IndexAt(s, offset).value]) == offset
  {
    if offset > 0 && s != "" && offset >= Width(s[0]) && IndexAt(s, offset).Some? {
      IndexAtSound(s[1..], offset - Width(s[0]));
      var i := IndexAt(s, offset).value;
      FirstChar(s, i);
    }
  }

  lemma {:induction false} IndexAtComplete(s: string, i: nat)
    requires i <= |s|
    ensures IndexAt(s, ByteLen(s[..i])) == Some(i)
  {
    if i > 0 {
      FirstChar(s, i);
      IndexAtComplete(s[1..], i - 1);
    }
  }

  lemma FirstChar(s: string, i: nat)
    requires 0 < i <= |s|
    ensures ByteLen(s[..i]) == Width(s[0]) + ByteLen(s[1..][..i - 1])
  {
    assert s[..i] == [s[0]] + s[1..][..i - 1];
    ByteLenConcat([s[0]], s[1..][..i - 1]);
    assert [s[0]][..0] == "";
  }

  lemma ByteLenMono(s: string, i: nat, j: nat)
    requires i <= |s| && j <= |s|
    ensures i < j <==> ByteLen(s[..i]) < ByteLen(s[..j])
  {
    hide ByteLen;
    if i <= j {
      ByteLenSplit(s, i, j);
    } else {
      ByteLenSplit(s, j, i);
    }
  }

  /** The first character boundary from `index` on; an index past the end is returned as it is. */
  method CeilCharBoundary(s: string, index: nat) returns (r: nat)
    ensures index <= ByteLen(s) ==> index <= r && IndexAt(s, r).Some?
    ensures index <= ByteLen(s) ==> forall k :: index <= k < r ==> IndexAt(s, k).None?
    ensures index > ByteLen(s) ==> r == index
  {
    hide IndexAt, ByteLen;
    IndexAtComplete(s, |s|);
    assert s[..|s|] == s;
    if index > ByteLen(s) {
      IndexAtSound(s, index);
      if IndexAt(s, index).Some? {
        ByteLenMono(s, |s|, IndexAt(s, index).value);
      }
    }
    r := index;
    while IndexAt(s, r).None? && r < ByteLen(s)
      invariant index <= ByteLen(s) ==> index <= r <= ByteLen(s)
      invariant index > ByteLen(s) ==> r == index
      invariant forall k :: index <= k < r ==> IndexAt(s, k).None?
    {
      r := r + 1;
    }
  }

  /** The boundary after the character at `i`. */
  lemma NextBoundary(s: string, i: nat, r: nat)
    requires i < |s| && ByteLen(s[..i]) < r && IndexAt(s, r).Some?
    requires forall k :: ByteLen(s[..i]) + 1 <= k < r ==> IndexAt(s, k).None?
    ensures r == ByteLen(s[..i + 1]) && IndexAt(s, r) == Some(i + 1)
  {
    hide IndexAt, ByteLen;
    IndexAtComplete(s, i + 1);
    IndexAtSound(s, r);
    var k := IndexAt(s, r).value;
    ByteLenMono(s, i, i + 1);
    ByteLenMono(s, i, k);
    ByteLenMono(s, i + 1, k);
    ByteLenMono(s, k, i + 1);
  }

  /** Byte offsets are counted in the encoding. */
  lemma {:induction false} ByteLenIs(s: string)
    ensures ByteLen(s) == |EncodeString(s)|
  {
    if s != "" {
      var init, last := s[..|s| - 1], s[|s| - 1];
      ByteLenIs(init);
      assert s == init + [last] && [last][1..] == "";
      EncodeConcat(init, [last]);
    }
  }
}
