/**
 * The reporter patcher: four fixed-length find-and-replace passes, in table
 * order and in place, over the bytes the validation routine was handed.
 */
module Patcher {
  import opened Options
  import opened Patterns
  import opened FindReplace

  /** The bytes after one pass of each pattern of `ps`, in order. */
  function ApplyAll(s: seq<Byte>, ps: seq<Pattern>): (t: seq<Byte>)
    decreases |ps|
    ensures |t| == |s|
  {
    if |ps| == 0 then s else Apply(ApplyAll(s, ps[..|ps| - 1]), ps[|ps| - 1])
  }

  /** The first `m` passes of `ps` are the first `m - 1` and then pass `m - 1`. */
  lemma PrefixStep(s: seq<Byte>, ps: seq<Pattern>, m: nat)
    requires 0 < m <= |ps|
    ensures ApplyAll(s, ps[..m]) == Apply(ApplyAll(s, ps[..m - 1]), ps[m - 1])
  {
    assert ps[..m][..m - 1] == ps[..m - 1];
  }

  /** The buffer as the `k`-th pass of the patcher finds it. */
  function Stage(s: seq<Byte>, k: nat): seq<Byte>
    requires k <= |Table()|
  {
    ApplyAll(s, Table()[..k])
  }

  /** The buffer after the patcher has run over it. */
  function Patched(s: seq<Byte>): seq<Byte> {
    ApplyAll(s, Table())
  }

  /** Offset `j` lies in a window that some pass of `ps` overwrote: where that pass first found its needle. */
  ghost predicate Touched(s: seq<Byte>, ps: seq<Pattern>, j: int)
    decreases |ps|
  {
    |ps| > 0 &&
    (Touched(s, ps[..|ps| - 1], j) ||
     match First(ApplyAll(s, ps[..|ps| - 1]), ps[|ps| - 1].find)
     case None => false
     case Some(i) => i <= j < i + |ps[|ps| - 1].find|)
  }

  /**
   * Patching changes bytes only inside the windows where a needle was found;
   * every window lies inside the buffer.
   */
  lemma {:induction false} ChangesOnlyInWindows(s: seq<Byte>, ps: seq<Pattern>)
    decreases |ps|
    ensures forall j :: Touched(s, ps, j) ==> 0 <= j < |s|
    ensures forall j :: 0 <= j < |s| && !Touched(s, ps, j) ==> ApplyAll(s, ps)[j] == s[j]
  {
    if |ps| > 0 {
      ChangesOnlyInWindows(s, ps[..|ps| - 1]);
      ApplySpec(ApplyAll(s, ps[..|ps| - 1]), ps[|ps| - 1]);
    }
  }

  /** A buffer holding none of the needles is left exactly as it was, with no window overwritten. */
  lemma {:induction false} NoNeedleNoChange(s: seq<Byte>, ps: seq<Pattern>)
    requires forall k :: 0 <= k < |ps| ==> !Occurs(s, ps[k].find)
    decreases |ps|
    ensures ApplyAll(s, ps) == s
    ensures forall j :: !Touched(s, ps, j)
  {
    if |ps| > 0 {
      NoNeedleNoChange(s, ps[..|ps| - 1]);
    }
  }

  /**
   * When the only needle of `ps` present in `s` is that of entry `k`, first
   * found at `i`, and no later entry's needle can be formed across that
   * entry's replacement, patching yields `s` with exactly that window
   * overwritten by the replacement.
   */
  lemma {:induction false} SoleNeedleReplaced(s: seq<Byte>, ps: seq<Pattern>, k: nat, i: nat)
    requires k < |ps|
    requires OccursAt(s, ps[k].find, i) && forall j :: 0 <= j < i ==> !OccursAt(s, ps[k].find, j)
    requires forall m :: 0 <= m < |ps| && m != k ==> !Occurs(s, ps[m].find)
    requires forall m :: k < m < |ps| ==> NoCross(ps[m].find, ps[k].replace)
    decreases |ps|
    ensures ApplyAll(s, ps) == Overwrite(s, i, ps[k].replace)
  {
    var last := |ps| - 1;
    var prefix := ps[..last];
    assert forall m :: 0 <= m < last ==> prefix[m] == ps[m];
    if k == last {
      NoNeedleNoChange(s, prefix);
      FirstIsEarliest(s, ps[k].find, i);
      assert ApplyAll(s, ps) == Apply(s, ps[k]);
    } else {
      SoleNeedleReplaced(s, prefix, k, i);
      var t := Overwrite(s, i, ps[k].replace);
      forall q | OccursAt(t, ps[last].find, q) ensures false {
        OverwriteCreatesNoNeedle(s, i, ps[k].replace, ps[last].find, q);
      }
      assert First(t, ps[last].find).None?;
      assert ApplyAll(s, ps) == Apply(t, ps[last]) == t;
    }
  }

  /**
   * Every occurrence of a needle `n` that no replacement of `ps` can help
   * form was already in the buffer before patching.
   */
  lemma {:induction false} NoNewOccurrences(s: seq<Byte>, ps: seq<Pattern>, n: seq<Byte>, q: int)
    requires forall k :: 0 <= k < |ps| ==> NoCross(n, ps[k].replace)
    requires OccursAt(ApplyAll(s, ps), n, q)
    decreases |ps|
    ensures OccursAt(s, n, q)
  {
    if |ps| > 0 {
      var before := ApplyAll(s, ps[..|ps| - 1]);
      var p := ps[|ps| - 1];
      match First(before, p.find)
      case None =>
        NoNewOccurrences(s, ps[..|ps| - 1], n, q);
      case Some(i) =>
        OverwriteCreatesNoNeedle(before, i, p.replace, n, q);
        NoNewOccurrences(s, ps[..|ps| - 1], n, q);
    }
  }

  /**
   * When each needle occurs at most once and no replacement can help form
   * any needle, one round of patching leaves no needle in the buffer.
   */
  lemma {:induction false} PatchingClearsNeedles(s: seq<Byte>, ps: seq<Pattern>)
    requires forall k :: 0 <= k < |ps| ==> AtMostOnce(s, ps[k].find)
    requires forall j, k :: 0 <= j < |ps| && 0 <= k < |ps| ==> NoCross(ps[j].find, ps[k].replace)
    decreases |ps|
    ensures forall k :: 0 <= k < |ps| ==> !Occurs(ApplyAll(s, ps), ps[k].find)
  {
    if |ps| > 0 {
      var prefix := ps[..|ps| - 1];
      var p := ps[|ps| - 1];
      var before := ApplyAll(s, prefix);
      PatchingClearsNeedles(s, prefix);
      assert forall k :: 0 <= k < |prefix| ==> !Occurs(before, ps[k].find);
      forall a, b | OccursAt(before, p.find, a) && OccursAt(before, p.find, b) ensures a == b {
        NoNewOccurrences(s, prefix, p.find, a);
        NoNewOccurrences(s, prefix, p.find, b);
      }
      match First(before, p.find)
      case None =>
      case Some(i) =>
        forall k, q | 0 <= k < |ps| && OccursAt(Overwrite(before, i, p.replace), ps[k].find, q) ensures false {
          OverwriteCreatesNoNeedle(before, i, p.replace, ps[k].find, q);
        }
    }
  }

  /** The patcher's stages are the four passes of the table, in order. */
  lemma TableUnfolds(s: seq<Byte>)
    ensures Stage(s, 1) == Apply(s, ControllerName)
    ensures Stage(s, 2) == Apply(Stage(s, 1), HostDeviceName)
    ensures Stage(s, 3) == Apply(Stage(s, 2), USBControllerName)
    ensures Stage(s, 4) == Apply(Stage(s, 3), USBBundleIdentifier)
    ensures Patched(s) == Stage(s, 4)
  {
    var t := Table();
    assert t[..1][..0] == t[..0] == [] && t[..1][0] == ControllerName;
    assert ApplyAll(s, t[..0]) == s;
    assert t[..2][..1] == t[..1] && t[..2][1] == HostDeviceName;
    assert t[..3][..2] == t[..2] && t[..3][2] == USBControllerName;
    assert t[..4][..3] == t[..3] && t[..4][3] == USBBundleIdentifier;
    assert t[..4] == t;
  }

  /**
   * A buffer whose first occurrence of table needle `k` is at `i`, and which
   * holds none of the other three needles, comes out of the patcher with
   * that window reading the replacement and every other byte unchanged.
   */
  lemma TableNeedleReplaced(s: seq<Byte>, k: nat, i: nat)
    requires k < |Table()|
    requires OccursAt(s, Table()[k].find, i) && forall j :: 0 <= j < i ==> !OccursAt(s, Table()[k].find, j)
    requires forall m :: 0 <= m < |Table()| && m != k ==> !Occurs(s, Table()[m].find)
    ensures |Patched(s)| == |s|
    ensures Patched(s)[i..i + |Table()[k].find|] == Table()[k].replace
    ensures forall j :: 0 <= j < |s| && !(i <= j < i + |Table()[k].find|) ==> Patched(s)[j] == s[j]
  {
    TableNoCross();
    SoleNeedleReplaced(s, Table(), k, i);
  }

  /** Each pass of the patcher finds its needle iff the input holds it. */
  lemma PassesSeeInputNeedles(s: seq<Byte>)
    ensures Occurs(Stage(s, 0), AppleSDXC) <==> Occurs(s, AppleSDXC)
    ensures Occurs(Stage(s, 1), AppleSDXCSlot) <==> Occurs(s, AppleSDXCSlot)
    ensures Occurs(Stage(s, 2), AppleUSBCardReaderSBC) <==> Occurs(s, AppleUSBCardReaderSBC)
    ensures Occurs(Stage(s, 3), AppleUCRBundleIdentifier) <==> Occurs(s, AppleUCRBundleIdentifier)
  {
    StageKeepsNeedles(s, 0);
    StageKeepsNeedles(s, 1);
    StageKeepsNeedles(s, 2);
    StageKeepsNeedles(s, 3);
  }

  /**
   * An occurrence of a needle `n` that is `Apart` from every needle of `ps`
   * survives the passes of `ps`: no window they overwrite reaches it.
   */
  lemma {:induction false} OccurrenceSurvives(s: seq<Byte>, ps: seq<Pattern>, n: seq<Byte>, q: int)
    requires forall k :: 0 <= k < |ps| ==> Apart(n, ps[k].find)
    requires OccursAt(s, n, q)
    decreases |ps|
    ensures OccursAt(ApplyAll(s, ps), n, q)
  {
    if |ps| > 0 {
      var prefix := ps[..|ps| - 1];
      var p := ps[|ps| - 1];
      OccurrenceSurvives(s, prefix, n, q);
      var before := ApplyAll(s, prefix);
      match First(before, p.find)
      case None =>
      case Some(i) =>
        OccurrencesApart(before, n, p.find, q, i);
        OverwriteElsewhere(before, i, p.replace, q, |n|);
    }
  }

  /**
   * Pass `k` of the patcher sees the needle of entry `k` exactly where the
   * input holds it: the earlier passes neither create nor destroy any of
   * its occurrences. So the pass finds its needle iff the input holds it,
   * and first at the same offset.
   */
  lemma StageKeepsNeedles(s: seq<Byte>, k: nat)
    requires k < |Table()|
    ensures forall q :: OccursAt(Stage(s, k), Table()[k].find, q) <==> OccursAt(s, Table()[k].find, q)
    ensures Occurs(Stage(s, k), Table()[k].find) <==> Occurs(s, Table()[k].find)
    ensures First(Stage(s, k), Table()[k].find) == First(s, Table()[k].find)
  {
    var n := Table()[k].find;
    var ps := Table()[..k];
    TableNoCross();
    TableApart();
    forall q ensures OccursAt(Stage(s, k), n, q) <==> OccursAt(s, n, q) {
      if OccursAt(Stage(s, k), n, q) {
        NoNewOccurrences(s, ps, n, q);
      }
      if OccursAt(s, n, q) {
        OccurrenceSurvives(s, ps, n, q);
      }
    }
    match First(s, n)
    case None =>
    case Some(i) => FirstIsEarliest(Stage(s, k), n, i);
  }

  /**
   * The window that pass `k` of `ps` writes where its needle first occurs,
   * at `i`, still holds the replacement after the first `m` passes, when no
   * later pass writes into it.
   */
  lemma {:induction false} WindowKeepsReplacement(s: seq<Byte>, ps: seq<Pattern>, k: nat, i: nat, m: nat)
    requires k < m <= |ps|
    requires First(ApplyAll(s, ps[..k]), ps[k].find) == Some(i)
    requires forall j {:trigger ApplyAll(s, ps[..j])} :: k < j < |ps| ==> PassClearOf(ApplyAll(s, ps[..j]), ps[j], i, |ps[k].find|)
    decreases m
    ensures i + |ps[k].find| <= |s|
    ensures ApplyAll(s, ps[..m])[i..i + |ps[k].find|] == ps[k].replace
  {
    var n, r := ps[k].find, ps[k].replace;
    var before, p := ApplyAll(s, ps[..m - 1]), ps[m - 1];
    PrefixStep(s, ps, m);
    if m == k + 1 {
      assert Apply(before, p) == Overwrite(before, i, r);
    } else {
      WindowKeepsReplacement(s, ps, k, i, m - 1);
      PassKeepsClearWindow(before, p, i, |n|);
    }
  }

  /**
   * Whatever else the buffer holds, the first occurrence of each table
   * needle in the input comes out of the patcher reading its replacement.
   */
  lemma TableWindowReplaced(s: seq<Byte>, k: nat)
    requires k < |Table()| && Occurs(s, Table()[k].find)
    ensures var i := First(s, Table()[k].find).value;
      i + |Table()[k].find| <= |Patched(s)| && Patched(s)[i..i + |Table()[k].find|] == Table()[k].replace
  {
    var n := Table()[k].find;
    var i := First(s, n).value;
    StageKeepsNeedles(s, k);
    forall j | k < j < |Table()| ensures PassClearOf(Stage(s, j), Table()[j], i, |n|) {
      StageKeepsNeedles(s, j);
      match First(s, Table()[j].find)
      case None =>
      case Some(q) =>
        TableApart();
        OccurrencesApart(s, n, Table()[j].find, i, q);
    }
    WindowKeepsReplacement(s, Table(), k, i, |Table()|);
    assert Table()[..|Table()|] == Table();
  }

  /** The buffer "AppleSDXC\0" comes out as "WolfsSDXC\0". */
  lemma ControllerNameScenario()
    ensures Patched(AppleSDXC) == WolfsSDXC
  {
    var s := AppleSDXC;
    assert OccursAt(s, Table()[0].find, 0);
    TableNeedleReplaced(s, 0, 0);
    assert Patched(s) == WolfsSDXC;
  }

  /**
   * The 36-byte block "com.apple.driver.AppleUSBCardReader\0" comes out as
   * "science.firewolf.rtsx" zero-padded to the same length.
   */
  lemma BundleIdentifierScenario()
    ensures Patched(AppleUCRBundleIdentifier) == RealtekUCRBundleIdentifier
  {
    var s := AppleUCRBundleIdentifier;
    // both PCIe needles hold an 'X', which the bundle identifier lacks
    assert Absent(s, 0x58);
    AbsentByteExcludes(s, AppleSDXC, 7);
    AbsentByteExcludes(s, AppleSDXCSlot, 7);
    assert OccursAt(s, Table()[3].find, 0);
    TableNeedleReplaced(s, 3, 0);
    assert Patched(s) == RealtekUCRBundleIdentifier;
  }

  /**
   * When each needle occurs at most once, patching leaves no needle behind,
   * so patching the result again finds nothing and changes nothing.
   */
  lemma PatchIdempotent(s: seq<Byte>)
    requires forall k :: 0 <= k < |Table()| ==> AtMostOnce(s, Table()[k].find)
    ensures forall k :: 0 <= k < |Table()| ==> !Occurs(Patched(s), Table()[k].find)
    ensures Patched(Patched(s)) == Patched(s)
  {
    TableNoCross();
    PatchingClearsNeedles(s, Table());
    NoNeedleNoChange(Patched(s), Table());
  }

  /** Patching "AppleSDXC\0AppleSDXC\0" renames the first copy only. */
  lemma FirstCopyRenamed()
    ensures Patched(AppleSDXC + AppleSDXC) == WolfsSDXC + AppleSDXC
  {
    var s := AppleSDXC + AppleSDXC;
    // "AppleSDXCSlot\0" holds a 't' and the USB needles start with 'c'; `s` has neither
    assert Absent(s, 0x74) && Absent(s, 0x63);
    AbsentByteExcludes(s, AppleSDXCSlot, 12);
    AbsentByteExcludes(s, AppleUSBCardReaderSBC, 0);
    AbsentByteExcludes(s, AppleUCRBundleIdentifier, 0);
    assert OccursAt(s, AppleSDXC, 0);
    TableNeedleReplaced(s, 0, 0);
    assert Patched(s) == WolfsSDXC + AppleSDXC;
  }

  /** Patching "WolfsSDXC\0AppleSDXC\0" renames the second copy. */
  lemma SecondCopyRenamed()
    ensures Patched(WolfsSDXC + AppleSDXC) == WolfsSDXC + WolfsSDXC
  {
    var t := WolfsSDXC + AppleSDXC;
    ReplacementsLackNeedleStarts();
    assert Absent(t, 0x74) && Absent(t, 0x63);
    AbsentByteExcludes(t, AppleSDXCSlot, 12);
    AbsentByteExcludes(t, AppleUSBCardReaderSBC, 0);
    AbsentByteExcludes(t, AppleUCRBundleIdentifier, 0);
    assert OccursAt(t, AppleSDXC, 10);
    forall j | 0 <= j < 10 ensures !OccursAt(t, AppleSDXC, j) {
      assert t[j] == WolfsSDXC[j] != 0x41;
    }
    TableNeedleReplaced(t, 0, 10);
    assert Patched(t) == WolfsSDXC + WolfsSDXC;
  }

  /**
   * Without the at-most-once condition patching is not idempotent: each pass
   * replaces only the first occurrence, so in "AppleSDXC\0AppleSDXC\0" the
   * first run renames the first copy and a second run renames the other.
   */
  lemma PatchNotIdempotentOnRepeats()
    ensures Patched(AppleSDXC + AppleSDXC) == WolfsSDXC + AppleSDXC
    ensures Patched(Patched(AppleSDXC + AppleSDXC)) == WolfsSDXC + WolfsSDXC
    ensures Patched(Patched(AppleSDXC + AppleSDXC)) != Patched(AppleSDXC + AppleSDXC)
  {
    FirstCopyRenamed();
    SecondCopyRenamed();
    assert (WolfsSDXC + WolfsSDXC)[10] != (WolfsSDXC + AppleSDXC)[10];
  }

  /**
   * Runs the four find-and-replace passes over `data[0..size)` in table
   * order; `applied[k]` is whether pass `k` found its needle, which is
   * exactly whether the input holds needle `k` (the source logs a line for
   * each such pass).
   */
  method PatchReporter(data: array<Byte>, size: nat) returns (applied: seq<bool>)
    requires size <= data.Length
    modifies data
    ensures data[..size] == Patched(old(data[..size]))
    ensures data[size..] == old(data[size..])
    ensures |applied| == |Table()|
    ensures applied[0] <==> Occurs(old(data[..size]), AppleSDXC)
    ensures applied[1] <==> Occurs(old(data[..size]), AppleSDXCSlot)
    ensures applied[2] <==> Occurs(old(data[..size]), AppleUSBCardReaderSBC)
    ensures applied[3] <==> Occurs(old(data[..size]), AppleUCRBundleIdentifier)
  {
    ghost var s := data[..size];
    TableUnfolds(s);
    PassesSeeInputNeedles(s);
    assert Stage(s, 0) == s by { assert Table()[..0] == []; }
    var pciController := FindAndReplace(data, size, ControllerName);
    assert data[..size] == Stage(s, 1);
    var hostDevice := FindAndReplace(data, size, HostDeviceName);
    assert data[..size] == Stage(s, 2);
    var usbController := FindAndReplace(data, size, USBControllerName);
    assert data[..size] == Stage(s, 3);
    var usbBundle := FindAndReplace(data, size, USBBundleIdentifier);
    applied := [pciController, hostDevice, usbController, usbBundle];
  }
}
