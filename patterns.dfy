/**
 * The pattern table: four needle/replacement byte arrays that rename the
 * first-party card reader identifiers inside the system profiler's reporter.
 */
module Patterns {

  /** One byte of validated memory (C's uint8_t). */
  type Byte = b: int | 0 <= b < 0x100

  /** A needle and the bytes written over it when it is found. */
  datatype Substitution = Substitution(find: seq<Byte>, replace: seq<Byte>)

  /**
   * A well-formed table entry: a non-empty needle and a replacement of the
   * same length, so that a substitution never moves or resizes the bytes
   * around it. A constant that broke this would be rejected by the verifier.
   */
  type Pattern = s: Substitution | |s.find| == |s.replace| && |s.find| > 0
    witness Substitution([0], [0])

  // "AppleSDXC\0": controller class name matched by SPCardReaderReporter::updateDictionary()
  const AppleSDXC: seq<Byte> := [0x41, 0x70, 0x70, 0x6C, 0x65, 0x53, 0x44, 0x58, 0x43, 0x00]

  // "WolfsSDXC\0"
  const WolfsSDXC: seq<Byte> := [0x57, 0x6F, 0x6C, 0x66, 0x73, 0x53, 0x44, 0x58, 0x43, 0x00]

  // "AppleSDXCSlot\0": host device class name checked by SPCardReaderController::initWithRegistryEntry()
  const AppleSDXCSlot: seq<Byte> :=
    [0x41, 0x70, 0x70, 0x6C, 0x65, 0x53, 0x44, 0x58, 0x43, 0x53, 0x6C, 0x6F, 0x74, 0x00]

  // "WolfsSDXCSlot\0"
  const WolfsSDXCSlot: seq<Byte> :=
    [0x57, 0x6F, 0x6C, 0x66, 0x73, 0x53, 0x44, 0x58, 0x43, 0x53, 0x6C, 0x6F, 0x74, 0x00]

  // "com_apple_driver_AppleUSBCardReaderSBC\0": USB controller class name
  const AppleUSBCardReaderSBC: seq<Byte> :=
    [0x63, 0x6F, 0x6D, 0x5F, 0x61, 0x70, 0x70, 0x6C, 0x65, 0x5F,
     0x64, 0x72, 0x69, 0x76, 0x65, 0x72, 0x5F, 0x41, 0x70, 0x70,
     0x6C, 0x65, 0x55, 0x53, 0x42, 0x43, 0x61, 0x72, 0x64, 0x52,
     0x65, 0x61, 0x64, 0x65, 0x72, 0x53, 0x42, 0x43, 0x00]

  // "WolfsSDXC" zero-padded to 39 bytes
  const WolfsSDXCUSB: seq<Byte> :=
    [0x57, 0x6F, 0x6C, 0x66, 0x73, 0x53, 0x44, 0x58, 0x43, 0x00,
     0x00, 0x00, 0x00, 0x00, 0x00, 0x00, 0x00, 0x00, 0x00, 0x00,
     0x00, 0x00, 0x00, 0x00, 0x00, 0x00, 0x00, 0x00, 0x00, 0x00,
     0x00, 0x00, 0x00, 0x00, 0x00, 0x00, 0x00, 0x00, 0x00]

  // "com.apple.driver.AppleUSBCardReader\0": bundle identifier of the USB card reader driver
  const AppleUCRBundleIdentifier: seq<Byte> :=
    [0x63, 0x6F, 0x6D, 0x2E, 0x61, 0x70, 0x70, 0x6C, 0x65, 0x2E,
     0x64, 0x72, 0x69, 0x76, 0x65, 0x72, 0x2E, 0x41, 0x70, 0x70,
     0x6C, 0x65, 0x55, 0x53, 0x42, 0x43, 0x61, 0x72, 0x64, 0x52,
     0x65, 0x61, 0x64, 0x65, 0x72, 0x00]

  // "science.firewolf.rtsx" zero-padded to 36 bytes
  const RealtekUCRBundleIdentifier: seq<Byte> :=
    [0x73, 0x63, 0x69, 0x65, 0x6E, 0x63, 0x65, 0x2E, 0x66, 0x69,
     0x72, 0x65, 0x77, 0x6F, 0x6C, 0x66, 0x2E, 0x72, 0x74, 0x73,
     0x78, 0x00, 0x00, 0x00, 0x00, 0x00, 0x00, 0x00, 0x00, 0x00,
     0x00, 0x00, 0x00, 0x00, 0x00, 0x00]

  const ControllerName: Pattern := Substitution(AppleSDXC, WolfsSDXC)
  const HostDeviceName: Pattern := Substitution(AppleSDXCSlot, WolfsSDXCSlot)
  const USBControllerName: Pattern := Substitution(AppleUSBCardReaderSBC, WolfsSDXCUSB)
  const USBBundleIdentifier: Pattern := Substitution(AppleUCRBundleIdentifier, RealtekUCRBundleIdentifier)

  /** The patterns in the order the patcher tries them. */
  function Table(): (t: seq<Pattern>)
    ensures |t| == 4
    ensures |t[0].find| == 10 && |t[1].find| == 14 && |t[2].find| == 39 && |t[3].find| == 36
    ensures forall k :: 0 <= k < |t| ==> |t[k].replace| == |t[k].find|
  {
    [ControllerName, HostDeviceName, USBControllerName, USBBundleIdentifier]
  }

  /** Byte `b` occurs nowhere in `s`. */
  predicate Absent(s: seq<Byte>, b: Byte) {
    forall d :: 0 <= d < |s| ==> s[d] != b
  }

  /** Wherever `a` occurs in `s`, a byte other than `b` follows it. */
  predicate NeverFollowedBy(s: seq<Byte>, a: Byte, b: Byte) {
    forall d :: 0 <= d < |s| && s[d] == a ==> d + 1 < |s| && s[d + 1] != b
  }

  /**
   * A sufficient condition for writing `r` over a window never to create a
   * new occurrence of needle `n` that overlaps the window: the first byte of
   * `r` is nowhere in `n` (so `n` cannot cover the window's start), and
   * wherever `n`'s first byte occurs in `r` the next byte is not `n`'s second
   * (so `n` cannot start inside the window).
   */
  predicate NoCross(n: seq<Byte>, r: seq<Byte>) {
    |n| >= 2 && |r| >= 1 && Absent(n, r[0]) && NeverFollowedBy(r, n[0], n[1])
  }

  /** No needle contains 'W' or 's', the first bytes of the replacements. */
  lemma NeedlesLackReplacementStarts()
    ensures Absent(AppleSDXC, 0x57) && Absent(AppleSDXCSlot, 0x57)
    ensures Absent(AppleUSBCardReaderSBC, 0x57) && Absent(AppleUCRBundleIdentifier, 0x57)
    ensures Absent(AppleSDXC, 0x73) && Absent(AppleSDXCSlot, 0x73)
    ensures Absent(AppleUSBCardReaderSBC, 0x73) && Absent(AppleUCRBundleIdentifier, 0x73)
  {
  }

  /**
   * No replacement contains 'A', the first byte of the PCIe needles; only the
   * Realtek bundle identifier contains 'c', the first byte of the USB needles,
   * and never followed by 'o'.
   */
  lemma ReplacementsLackNeedleStarts()
    ensures Absent(WolfsSDXC, 0x41) && Absent(WolfsSDXCSlot, 0x41)
    ensures Absent(WolfsSDXCUSB, 0x41) && Absent(RealtekUCRBundleIdentifier, 0x41)
    ensures Absent(WolfsSDXC, 0x63) && Absent(WolfsSDXCSlot, 0x63) && Absent(WolfsSDXCUSB, 0x63)
    ensures NeverFollowedBy(RealtekUCRBundleIdentifier, 0x63, 0x6F)
  {
  }

  /**
   * NoCross from the shapes of the table: every replacement starts with 'W'
   * or 's', which no needle contains, and every needle starts with "Ap" or
   * "co", neither of which any replacement contains.
   */
  lemma {:induction false} NoCrossFromShapes(n: seq<Byte>, r: seq<Byte>)
    requires |n| >= 2 && |r| >= 1
    requires Absent(n, 0x57) && Absent(n, 0x73) && (r[0] == 0x57 || r[0] == 0x73)
    requires (n[0] == 0x41 && n[1] == 0x70) || (n[0] == 0x63 && n[1] == 0x6F)
    requires NeverFollowedBy(r, 0x41, 0x70) && NeverFollowedBy(r, 0x63, 0x6F)
    ensures NoCross(n, r)
  {
  }

  /** The needle of entry `j` starts with "Ap" or "co" and holds neither 'W' nor 's'. */
  lemma NeedleShape(j: nat)
    requires j < |Table()|
    ensures |Table()[j].find| >= 2
    ensures Absent(Table()[j].find, 0x57) && Absent(Table()[j].find, 0x73)
    ensures (Table()[j].find[0] == 0x41 && Table()[j].find[1] == 0x70) ||
            (Table()[j].find[0] == 0x63 && Table()[j].find[1] == 0x6F)
  {
    NeedlesLackReplacementStarts();
  }

  /** The replacement of entry `k` starts with 'W' or 's' and never holds "Ap" or "co". */
  lemma ReplacementShape(k: nat)
    requires k < |Table()|
    ensures |Table()[k].replace| >= 1
    ensures Table()[k].replace[0] == 0x57 || Table()[k].replace[0] == 0x73
    ensures NeverFollowedBy(Table()[k].replace, 0x41, 0x70) && NeverFollowedBy(Table()[k].replace, 0x63, 0x6F)
  {
    ReplacementsLackNeedleStarts();
  }

  /** No replacement of the table can help form any needle of the table. */
  lemma TableNoCross()
    ensures forall j, k :: 0 <= j < |Table()| && 0 <= k < |Table()| ==> NoCross(Table()[j].find, Table()[k].replace)
  {
    forall j, k | 0 <= j < |Table()| && 0 <= k < |Table()|
      ensures NoCross(Table()[j].find, Table()[k].replace)
    {
      NeedleShape(j);
      ReplacementShape(k);
      NoCrossFromShapes(Table()[j].find, Table()[k].replace);
    }
  }

  /** `n` ends in a NUL byte and holds no other, as a C string constant does. */
  predicate NulOnlyAtEnd(n: seq<Byte>) {
    |n| >= 1 && n[|n| - 1] == 0 && forall d :: 0 <= d < |n| - 1 ==> n[d] != 0
  }

  /**
   * A sufficient condition for occurrences of needles `n` and `m` never to
   * overlap: both are NUL-terminated with no inner NUL (so two overlapping
   * occurrences would end at the same byte), and they differ in one of the
   * two bytes before the NUL.
   */
  predicate Apart(n: seq<Byte>, m: seq<Byte>) {
    |n| >= 3 && |m| >= 3 && NulOnlyAtEnd(n) && NulOnlyAtEnd(m) &&
    (n[|n| - 2] != m[|m| - 2] || n[|n| - 3] != m[|m| - 3])
  }

  /** Every needle is a C string: its NUL terminator is its only NUL. */
  lemma NeedlesNulTerminated()
    ensures NulOnlyAtEnd(AppleSDXC) && NulOnlyAtEnd(AppleSDXCSlot)
    ensures NulOnlyAtEnd(AppleUSBCardReaderSBC) && NulOnlyAtEnd(AppleUCRBundleIdentifier)
  {
  }

  /**
   * Occurrences of two different needles of the table never overlap: the
   * needles end in "XC", "ot", "BC" and "er" before their NUL.
   */
  lemma TableApart()
    ensures forall j, k :: 0 <= j < |Table()| && 0 <= k < |Table()| && j != k ==> Apart(Table()[j].find, Table()[k].find)
  {
    NeedlesNulTerminated();
  }
}
