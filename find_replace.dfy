/**
 * The fixed-length find-and-replace the hooking library offers to plugins:
 * search a buffer forward for the first occurrence of a needle and, if there
 * is one, overwrite it in place with a replacement of the same length.
 */
module FindReplace {
  import opened Options
  import opened Patterns

  /** `needle` occurs in `s` starting at offset `i`. */
  predicate OccursAt(s: seq<Byte>, needle: seq<Byte>, i: int) {
    0 <= i && i + |needle| <= |s| && s[i..i + |needle|] == needle
  }

  /** `needle` occurs somewhere in `s`. */
  ghost predicate Occurs(s: seq<Byte>, needle: seq<Byte>) {
    exists i :: OccursAt(s, needle, i)
  }

  /** `needle` occurs in `s` at `i` and nowhere else. */
  ghost predicate OccursOnlyAt(s: seq<Byte>, needle: seq<Byte>, i: int) {
    OccursAt(s, needle, i) && forall j :: OccursAt(s, needle, j) ==> j == i
  }

  /** `needle` occurs at most once in `s`. */
  ghost predicate AtMostOnce(s: seq<Byte>, needle: seq<Byte>) {
    forall i, j :: OccursAt(s, needle, i) && OccursAt(s, needle, j) ==> i == j
  }

  /** The offset of the first occurrence of `needle` in `s` at or after `from`. */
  function FirstFrom(s: seq<Byte>, needle: seq<Byte>, from: nat): (r: Option<nat>)
    decreases |s| - from
    ensures r.Some? ==> from <= r.value && OccursAt(s, needle, r.value)
    ensures r.Some? ==> forall j :: from <= j < r.value ==> !OccursAt(s, needle, j)
    ensures r.None? ==> forall j :: from <= j ==> !OccursAt(s, needle, j)
  {
    if from + |needle| > |s| then None
    else if s[from..from + |needle|] == needle then Some(from)
    else FirstFrom(s, needle, from + 1)
  }

  /** The offset of the first occurrence of `needle` in `s`, as a forward memmem finds it. */
  function First(s: seq<Byte>, needle: seq<Byte>): (r: Option<nat>)
    ensures r.None? <==> !Occurs(s, needle)
    ensures r.Some? ==> OccursAt(s, needle, r.value) && forall j :: 0 <= j < r.value ==> !OccursAt(s, needle, j)
  {
    FirstFrom(s, needle, 0)
  }

  /** An occurrence with none before it is the one `First` finds. */
  lemma FirstIsEarliest(s: seq<Byte>, needle: seq<Byte>, i: nat)
    requires OccursAt(s, needle, i)
    requires forall j :: 0 <= j < i ==> !OccursAt(s, needle, j)
    ensures First(s, needle) == Some(i)
  {
  }

  /** `s` with `r` written over the window starting at `i`. */
  function Overwrite(s: seq<Byte>, i: nat, r: seq<Byte>): (t: seq<Byte>)
    requires i + |r| <= |s|
    ensures |t| == |s|
    ensures t[i..i + |r|] == r
    ensures forall j :: 0 <= j < |s| && !(i <= j < i + |r|) ==> t[j] == s[j]
  {
    s[..i] + r + s[i + |r|..]
  }

  /** The bytes after one find-and-replace pass of `p` over `s`. */
  function Apply(s: seq<Byte>, p: Pattern): (t: seq<Byte>)
  {
    match First(s, p.find)
    case None => s
    case Some(i) => Overwrite(s, i, p.replace)
  }

  /**
   * One pass never resizes the buffer, leaves it alone when the needle is
   * absent, and otherwise puts the replacement exactly where the first
   * occurrence was and changes nothing outside that window.
   */
  lemma ApplySpec(s: seq<Byte>, p: Pattern)
    ensures |Apply(s, p)| == |s|
    ensures !Occurs(s, p.find) ==> Apply(s, p) == s
    ensures Occurs(s, p.find) ==>
      var i := First(s, p.find).value;
      OccursAt(s, p.find, i) && Apply(s, p)[i..i + |p.find|] == p.replace &&
      forall j :: 0 <= j < |s| && !(i <= j < i + |p.find|) ==> Apply(s, p)[j] == s[j]
  {
  }

  /**
   * Forward search of `data[0..size)` for the first occurrence of `needle`,
   * as memmem does; reads nothing at or past `size`.
   */
  method Search(data: array<Byte>, size: nat, needle: seq<Byte>) returns (found: bool, at: nat)
    requires size <= data.Length
    ensures found <==> First(data[..size], needle).Some?
    ensures found ==> First(data[..size], needle) == Some(at)
  {
    ghost var s := data[..size];
    var n := |needle|;
    at := 0;
    found := false;
    while at + n <= size && !found
      invariant at <= size
      invariant found ==> OccursAt(s, needle, at)
      invariant forall j :: 0 <= j < at ==> !OccursAt(s, needle, j)
      decreases size - at, !found
    {
      assert data[at..at + n] == s[at..at + n] by {
        forall d | at <= d < at + n ensures data[d] == s[d] { }
      }
      if data[at..at + n] == needle {
        found := true;
      } else {
        at := at + 1;
      }
    }
    if found {
      FirstIsEarliest(s, needle, at);
    }
  }

  /** Copies `r` over `data[at..at + |r|)`, as memcpy does; nothing else changes. */
  method CopyInto(data: array<Byte>, at: nat, r: seq<Byte>)
    requires at + |r| <= data.Length
    modifies data
    ensures data[..] == Overwrite(old(data[..]), at, r)
  {
    var k := 0;
    while k < |r|
      invariant 0 <= k <= |r|
      invariant data[..at] == old(data[..at])
      invariant data[at..at + k] == r[..k]
      invariant data[at + k..] == old(data[at + k..])
    {
      data[at + k] := r[k];
      k := k + 1;
    }
    assert data[..] == data[..at] + data[at..at + |r|] + data[at + |r|..];
  }

  /**
   * Searches `data[0..size)` for the first occurrence of `p.find` and
   * overwrites it with `p.replace`; reports whether there was one. No byte at
   * or past `size` is read or written.
   */
  method FindAndReplace(data: array<Byte>, size: nat, p: Pattern) returns (found: bool)
    requires size <= data.Length
    modifies data
    ensures found <==> Occurs(old(data[..size]), p.find)
    ensures data[..size] == Apply(old(data[..size]), p)
    ensures data[size..] == old(data[size..])
  {
    ghost var s := data[..size];
    ghost var whole := data[..];
    var at;
    found, at := Search(data, size, p.find);
    if found {
      CopyInto(data, at, p.replace);
      assert data[..size] == Overwrite(whole, at, p.replace)[..size];
      assert data[..size] == Overwrite(s, at, p.replace);
    }
  }

  /**
   * What an occurrence of `n` after writing `r` over a window tells about
   * the bytes: covering the window's start puts r[0] inside `n`, starting
   * inside the window puts `n`'s first two bytes inside `r`, and staying
   * clear of the window means it was there before.
   */
  lemma OccurrenceAfterOverwrite(s: seq<Byte>, i: nat, r: seq<Byte>, n: seq<Byte>, q: int)
    requires i + |r| <= |s| && |r| >= 1 && |n| >= 2
    requires OccursAt(Overwrite(s, i, r), n, q)
    ensures q <= i < q + |n| ==> n[i - q] == r[0]
    ensures i < q < i + |r| ==> r[q - i] == n[0] && (q - i + 1 < |r| ==> r[q - i + 1] == n[1])
    ensures q + |n| <= i || i + |r| <= q ==> OccursAt(s, n, q)
  {
  }

  /**
   * Under NoCross, writing `r` over a window creates no occurrence of `n`:
   * every occurrence afterwards was already there and lies clear of the window.
   */
  lemma OverwriteCreatesNoNeedle(s: seq<Byte>, i: nat, r: seq<Byte>, n: seq<Byte>, q: int)
    requires i + |r| <= |s| && NoCross(n, r)
    requires OccursAt(Overwrite(s, i, r), n, q)
    ensures OccursAt(s, n, q)
    ensures q + |n| <= i || i + |r| <= q
  {
    OccurrenceAfterOverwrite(s, i, r, n, q);
  }

  /** A needle holding a byte that `s` lacks does not occur in `s`. */
  lemma AbsentByteExcludes(s: seq<Byte>, needle: seq<Byte>, k: nat)
    requires k < |needle| && Absent(s, needle[k])
    ensures !Occurs(s, needle)
  {
  }

  /** Writing `r` over a window leaves every slice clear of it as it was. */
  lemma OverwriteElsewhere(s: seq<Byte>, i: nat, r: seq<Byte>, a: nat, len: nat)
    requires i + |r| <= |s| && a + len <= |s|
    requires a + len <= i || i + |r| <= a
    ensures Overwrite(s, i, r)[a..a + len] == s[a..a + len]
  {
  }

  /**
   * Two occurrences of NUL-terminated needles that share a byte end at the
   * same byte, and then agree on the two bytes before the NUL.
   */
  lemma OverlapEndsTogether(t: seq<Byte>, n: seq<Byte>, m: seq<Byte>, a: int, b: int)
    requires |n| >= 3 && |m| >= 3 && NulOnlyAtEnd(n) && NulOnlyAtEnd(m)
    requires OccursAt(t, n, a) && OccursAt(t, m, b)
    ensures a < b + |m| && b < a + |n| ==> a + |n| == b + |m|
    ensures a + |n| == b + |m| ==> n[|n| - 2] == m[|m| - 2] && n[|n| - 3] == m[|m| - 3]
  {
    var en, em := a + |n| - 1, b + |m| - 1;
    // a NUL inside the other occurrence can only be its last byte
    if b <= en <= em {
      assert t[en] == n[|n| - 1] == m[en - b];
    }
    if a <= em <= en {
      assert t[em] == m[|m| - 1] == n[em - a];
    }
    if en == em {
      assert t[en - 1] == n[|n| - 2] == m[|m| - 2];
      assert t[en - 2] == n[|n| - 3] == m[|m| - 3];
    }
  }

  /** Occurrences of two needles that are `Apart` never share a byte. */
  lemma OccurrencesApart(t: seq<Byte>, n: seq<Byte>, m: seq<Byte>, a: int, b: int)
    requires Apart(n, m)
    requires OccursAt(t, n, a) && OccursAt(t, m, b)
    ensures a + |n| <= b || b + |m| <= a
  {
    OverlapEndsTogether(t, n, m, a, b);
  }


  /** One pass of `p` over `t` writes nowhere in the window of `len` bytes at `i`. */
  predicate PassClearOf(t: seq<Byte>, p: Pattern, i: int, len: nat) {
    match First(t, p.find)
    case None => true
    case Some(j) => j + |p.find| <= i || i + len <= j
  }

  /** A pass that writes nowhere in a window leaves the window as it was. */
  lemma PassKeepsClearWindow(t: seq<Byte>, p: Pattern, i: nat, len: nat)
    requires i + len <= |t| && PassClearOf(t, p, i, len)
    ensures Apply(t, p)[i..i + len] == t[i..i + len]
  {
    match First(t, p.find)
    case None =>
    case Some(j) => OverwriteElsewhere(t, j, p.replace, i, len);
  }
}
