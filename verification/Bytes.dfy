/** Byte strings, substring search, and the joining of byte pieces. */
module Bytes {

  datatype Option<+T> = None | Some(value: T)

  newtype byte = b: int | 0 <= b < 256

  const UPPER: string := "ABCDEFGHIJKLMNOPQRSTUVWXYZ"
  const LOWER: string := "abcdefghijklmnopqrstuvwxyz"

  const CR: byte := 13
  const LF: byte := 10
  const SEMICOLON: byte := 59
  const CRLF: seq<byte> := [CR, LF]
  const HEADER_TERMINATOR: seq<byte> := [CR, LF, CR, LF]

  function Min(a: int, b: int): int {
    if a <= b then a else b
  }

  function Max(a: int, b: int): int {
    if a >= b then a else b
  }

  lemma Letters()
    ensures |UPPER| == |LOWER| == 26
    ensures forall i :: 0 <= i < 26 ==> UPPER[i] as int == 65 + i && LOWER[i] as int == 97 + i
  {
  }

  /** Whether `pat` stands at offset `k` of `b`. */
  predicate HasAt(b: seq<byte>, pat: seq<byte>, k: nat) {
    k + |pat| <= |b| && b[k..k + |pat|] == pat
  }

  /** Python's `bytes.find(pat, start)`: the first occurrence at or after `start`. */
  function Find(b: seq<byte>, pat: seq<byte>, start: nat): (r: Option<nat>)
    ensures r.Some? ==> start <= r.value && r.value + |pat| <= |b|
    decreases |b| - start
  {
    if start + |pat| > |b| then None
    else if HasAt(b, pat, start) then Some(start)
    else Find(b, pat, start + 1)
  }

  lemma {:induction false} FindIsFirst(b: seq<byte>, pat: seq<byte>, start: nat)
    ensures var r := Find(b, pat, start);
      && (r.Some? ==> HasAt(b, pat, r.value))
      && forall k: nat :: start <= k && (r.Some? ==> k < r.value) ==> !HasAt(b, pat, k)
    decreases |b| - start
  {
    if start + |pat| <= |b| && !HasAt(b, pat, start) {
      FindIsFirst(b, pat, start + 1);
    }
  }

  lemma FindFirst(b: seq<byte>, pat: seq<byte>, start: nat, at: nat)
    requires start <= at && HasAt(b, pat, at)
    requires forall k: nat :: start <= k < at ==> !HasAt(b, pat, k)
    ensures Find(b, pat, start) == Some(at)
  {
    FindIsFirst(b, pat, start);
  }

  /** An occurrence that ends before the cut is found in the cut string as well. */
  lemma FindCut(b: seq<byte>, pat: seq<byte>, start: nat, k: nat)
    requires k <= |b|
    ensures Find(b, pat, start).Some? && Find(b, pat, start).value + |pat| <= k
            ==> Find(b[..k], pat, start) == Find(b, pat, start)
    ensures Find(b[..k], pat, start).Some? ==> Find(b, pat, start) == Find(b[..k], pat, start)
  {
    var c := b[..k];
    FindIsFirst(b, pat, start);
    FindIsFirst(c, pat, start);
    forall j: nat | j + |pat| <= k
      ensures HasAt(c, pat, j) == HasAt(b, pat, j)
    {
      assert b[j..j + |pat|] == c[j..j + |pat|];
    }
  }

  /** `b"".join(parts)`. */
  function Join(parts: seq<seq<byte>>): (r: seq<byte>) {
    if parts == [] then [] else parts[0] + Join(parts[1..])
  }

  lemma {:induction false} JoinAppend(a: seq<seq<byte>>, b: seq<seq<byte>>)
    ensures Join(a + b) == Join(a) + Join(b)
  {
    if a == [] {
      assert a + b == b;
    } else {
      assert (a + b)[1..] == a[1..] + b;
      JoinAppend(a[1..], b);
    }
  }

  lemma JoinSnoc(a: seq<seq<byte>>, x: seq<byte>)
    ensures Join(a + [x]) == Join(a) + x
  {
    JoinAppend(a, [x]);
    assert Join([x]) == x + Join([]);
  }

  /** Moving the next piece from the rest to the parts joined so far. */
  lemma JoinShift(a: seq<seq<byte>>, x: seq<byte>, rest: seq<byte>)
    ensures Join(a + [x]) + rest == Join(a) + (x + rest)
  {
    JoinSnoc(a, x);
  }

  /** Where a message head ends: right after its empty line. */
  function HeadEnd(s: seq<byte>): (r: Option<nat>)
    ensures r.Some? ==> 4 <= r.value <= |s|
  {
    match Find(s, HEADER_TERMINATOR, 0)
    case None => None
    case Some(k) => Some(k + 4)
  }

  /** A head ends with the first empty line after some line. */
  lemma HeadEndIs(s: seq<byte>, end: nat)
    ensures HeadEnd(s) == Some(end) <==>
      && 4 <= end && HasAt(s, HEADER_TERMINATOR, end - 4)
      && forall k: nat :: k < end - 4 ==> !HasAt(s, HEADER_TERMINATOR, k)
  {
    FindIsFirst(s, HEADER_TERMINATOR, 0);
    if 4 <= end && HasAt(s, HEADER_TERMINATOR, end - 4)
      && forall k: nat :: k < end - 4 ==> !HasAt(s, HEADER_TERMINATOR, k)
    {
      FindFirst(s, HEADER_TERMINATOR, 0, end - 4);
    }
  }

  /** A head's end does not depend on the bytes after it. */
  lemma HeadEndCut(s: seq<byte>, n: nat)
    requires n <= |s| && HeadEnd(s[..n]).Some?
    ensures HeadEnd(s) == HeadEnd(s[..n])
  {
    FindCut(s, HEADER_TERMINATOR, 0, n);
  }
}
