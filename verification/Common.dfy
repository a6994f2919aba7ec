/** What several components share. */
module Common {

  datatype Option<+T> = None | Some(value: T)

  type Byte = b: int | 0 <= b < 256

  const UINT32 := 0x1_0000_0000
  const UINT64 := 0x1_0000_0000_0000_0000

  const CAPITALS := "ABCDEFGHIJKLM" + "NOPQRSTUVWXYZ"
  const SMALL_LETTERS := "abcdefghijklm" + "nopqrstuvwxyz"
  const DIGITS := "0123456789"

  lemma LettersInOrder(i: nat)
    ensures |CAPITALS| == 26 && |SMALL_LETTERS| == 26
    ensures i < 26 ==> CAPITALS[i] as int == 'A' as int + i && SMALL_LETTERS[i] as int == 'a' as int + i
  {
    if i < 13 {
      FirstLetters(i);
    } else if i < 26 {
      LastLetters(i - 13);
    }
  }

  lemma FirstLetters(i: nat)
    ensures i < 13 ==> "ABCDEFGHIJKLM"[i] as int == 'A' as int + i && "abcdefghijklm"[i] as int == 'a' as int + i
  {
  }

  lemma LastLetters(i: nat)
    ensures i < 13 ==> "NOPQRSTUVWXYZ"[i] as int == 'N' as int + i && "nopqrstuvwxyz"[i] as int == 'n' as int + i
  {
  }

  lemma DigitsInOrder(i: nat)
    ensures |DIGITS| == 10 && (i < 10 ==> DIGITS[i] as int == '0' as int + i)
  {
  }

  /** infra::Head: the first n elements, or all of them if there are fewer. */
  function Head<T>(s: seq<T>, n: nat): seq<T> { if |s| <= n then s else s[..n] }

  /** Pieces put together. */
  function Joined<T>(pieces: seq<seq<T>>): seq<T> {
    if pieces == [] then [] else Joined(pieces[..|pieces| - 1]) + pieces[|pieces| - 1]
  }

  /** `s` with `data` in place of what was at `at`. */
  function Overwritten<T>(s: seq<T>, at: nat, data: seq<T>): (r: seq<T>)
    requires at + |data| <= |s|
    ensures |r| == |s|
  {
    s[..at] + data + s[at + |data|..]
  }

  predicate Distinct<T(==)>(s: seq<T>) { forall i, j :: 0 <= i < j < |s| ==> s[i] != s[j] }

  /** IntrusiveList::erase and IntrusiveForwardList::erase_slow: removes a member, and leaves the list
      alone when it is none. */
  function Without<T(==, !new)>(s: seq<T>, x: T): (r: seq<T>)
    ensures forall y :: y in r <==> y in s && y != x
  {
    if s == [] then []
    else if s[0] == x then Without(s[1..], x)
    else [s[0]] + Without(s[1..], x)
  }

  lemma {:induction false} WithoutDistinct<T(!new)>(s: seq<T>, x: T)
    requires Distinct(s)
    ensures Distinct(Without(s, x))
  {
    if s != [] {
      assert s[0] !in s[1..];
      WithoutDistinct(s[1..], x);
    }
  }

  lemma {:induction false} WithoutAbsent<T(!new)>(s: seq<T>, x: T)
    requires x !in s
    ensures Without(s, x) == s
  {
    if s != [] { WithoutAbsent(s[1..], x); }
  }

  /** `r` is the end of `s`. */
  predicate Suffix<T(==)>(r: seq<T>, s: seq<T>) { |r| <= |s| && r == s[|s| - |r|..] }

  lemma SuffixEnds<T>(s: seq<T>)
    ensures Suffix(s, s) && Suffix([], s)
  {
  }

  lemma SuffixLength<T>(r: seq<T>, s: seq<T>)
    requires Suffix(r, s)
    ensures |r| <= |s|
  {
  }

  lemma SuffixTail<T>(r: seq<T>, s: seq<T>, n: nat)
    requires n <= |s| && Suffix(r, s[n..])
    ensures Suffix(r, s)
  {
    assert s[n..][|s| - n - |r|..] == s[|s| - |r|..];
  }

  lemma SuffixTrans<T>(a: seq<T>, b: seq<T>, c: seq<T>)
    requires Suffix(a, b) && Suffix(b, c)
    ensures Suffix(a, c)
  {
    SuffixTail(a, c, |c| - |b|);
  }

  lemma SuffixSplits<T>(r: seq<T>, s: seq<T>)
    requires Suffix(r, s)
    ensures |r| <= |s| && s[..|s| - |r|] + r == s
  {
  }
}
