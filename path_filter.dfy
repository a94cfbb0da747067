/**
 * The path filter: only pages of the system profiler's card reader reporter
 * are patched. A path is a C string: its characters up to the first NUL, or
 * the whole sequence when it holds none.
 */
module PathFilter {

  /** Where the reporter bundle lives (written in pieces only to keep the lines short). */
  const ReporterPath: string :=
    "/System" + "/Library" + "/SystemProfiler" + "/SPCardReaderReporter" + ".spreporter"

  /** Character `i` of C string `s`, reading NUL at and past its end. */
  function At(s: string, i: nat): char {
    if i < |s| then s[i] else '\0'
  }

  /** No NUL among the characters of `s` at offsets `from` to `to` (exclusive). */
  ghost predicate NoNulBetween(s: string, from: nat, to: nat) {
    forall j :: from <= j < to ==> At(s, j) != '\0'
  }

  /** The offset of the first NUL of `s` at or after `k`. */
  function StrlenFrom(s: string, k: nat): (n: nat)
    requires k <= |s|
    decreases |s| - k
    ensures k <= n <= |s|
    ensures NoNulBetween(s, k, n)
    ensures n < |s| ==> s[n] == '\0'
  {
    if k == |s| || s[k] == '\0' then k else StrlenFrom(s, k + 1)
  }

  /** C's strlen: the offset of the first NUL. */
  function Strlen(s: string): (n: nat)
    ensures n <= |s|
    ensures NoNulBetween(s, 0, n)
    ensures n < |s| ==> s[n] == '\0'
  {
    StrlenFrom(s, 0)
  }

  /**
   * C's strncmp from offset `k`: compares characters `k` to `n - 1` of `a`
   * and `b`, stopping at the first difference or at a NUL both share.
   */
  function StrncmpFrom(a: string, b: string, k: nat, n: nat): (r: int)
    decreases n - k
    ensures r == 0 <==> forall i :: k <= i < n && NoNulBetween(a, k, i) ==> At(a, i) == At(b, i)
  {
    if k >= n then 0
    else if At(a, k) != At(b, k) then At(a, k) as int - At(b, k) as int
    else if At(a, k) == '\0' then 0
    else StrncmpFrom(a, b, k + 1, n)
  }

  /**
   * C's strncmp: zero exactly when `a` and `b` agree on every character
   * among the first `n` that comes before `a`'s terminating NUL.
   */
  function Strncmp(a: string, b: string, n: nat): (r: int)
    ensures r == 0 <==> forall i :: 0 <= i < n && NoNulBetween(a, 0, i) ==> At(a, i) == At(b, i)
  {
    StrncmpFrom(a, b, 0, n)
  }

  /** The reference path has no NUL in it, so its strlen is its length, 62. */
  lemma ReporterPathLength()
    ensures Strlen(ReporterPath) == |ReporterPath| == 62
    ensures NoNulBetween(ReporterPath, 0, |ReporterPath|)
  {
    assert forall j :: 0 <= j < |ReporterPath| ==> ReporterPath[j] != '\0';
  }

  /**
   * Whether `path` names the reporter: strncmp against the reference path
   * over the reference path's strlen. This is a case-sensitive prefix test:
   * the path must begin with exactly the 62 reference characters.
   */
  function MatchReporterPath(path: string): (r: bool)
    ensures r <==> |path| >= |ReporterPath| && path[..|ReporterPath|] == ReporterPath
  {
    ReporterPathLength();
    var n := Strlen(ReporterPath);
    PrefixAgreement(path, ReporterPath, n);
    Strncmp(path, ReporterPath, n) == 0
  }

  /**
   * When the reference has no NUL among its first `n` characters, a string
   * agrees with it up to its own NUL on those characters exactly when it
   * starts with them.
   */
  lemma {:induction false} PrefixAgreement(a: string, b: string, n: nat)
    requires n <= |b| && NoNulBetween(b, 0, n)
    ensures (forall i :: 0 <= i < n && NoNulBetween(a, 0, i) ==> At(a, i) == At(b, i))
        <==> |a| >= n && a[..n] == b[..n]
  {
    if forall i :: 0 <= i < n && NoNulBetween(a, 0, i) ==> At(a, i) == At(b, i) {
      AgreesOnPrefix(a, b, n, n);
      assert |a| >= n by {
        if n > 0 { assert At(a, n - 1) == b[n - 1] && At(b, n - 1) == b[n - 1]; }
      }
    }
  }

  /** Helper for PrefixAgreement: agreement up to NUL gives agreement on the first `m` characters. */
  lemma {:induction false} AgreesOnPrefix(a: string, b: string, n: nat, m: nat)
    requires m <= n <= |b| && NoNulBetween(b, 0, n)
    requires forall i :: 0 <= i < n && NoNulBetween(a, 0, i) ==> At(a, i) == At(b, i)
    ensures forall i :: 0 <= i < m ==> At(a, i) == b[i]
    decreases m
  {
    if m > 0 {
      AgreesOnPrefix(a, b, n, m - 1);
      forall j | 0 <= j < m - 1 ensures At(a, j) != '\0' {
        assert At(b, j) == b[j];
      }
    }
  }

  /**
   * The reference path and every path below it match; a shorter path, a
   * path differing in case, and an unrelated path do not.
   */
  lemma MatchExamples(suffix: string)
    ensures MatchReporterPath(ReporterPath)
    ensures MatchReporterPath(ReporterPath + suffix)
    ensures !MatchReporterPath(ReporterPath[..|ReporterPath| - 1])
    ensures !MatchReporterPath("/system" + ReporterPath[7..])
    ensures !MatchReporterPath("/Applications/Foo.app")
  {
    assert (ReporterPath + suffix)[..|ReporterPath|] == ReporterPath;
    assert ("/system" + ReporterPath[7..])[1] != ReporterPath[1];
  }
}
