# RealtekCardReaderFriend: the reporter patch path, in Dafny

RealtekCardReaderFriend is a kernel plugin. It hooks the kernel's code-signing page validator so that macOS's
System Profiler card-reader reporter (`SPCardReaderReporter.spreporter`) recognises the Realtek driver as if it
were Apple's. The reporter's binary on disk is never changed. Instead, after the kernel has validated a page or
range of that binary, the plugin renames four identifiers in the memory the kernel hands back.

This project models that path and proves properties of it:

- **Pattern table** (`patterns.dfy`, module `Patterns`). There are four needle/replacement byte strings, with
  lengths 10, 14, 39 and 36. The subset type `Pattern` requires a non-empty needle and a replacement of the
  same length, so a malformed entry cannot even be declared. The module also proves byte-level facts about the
  table: no replacement can help form any needle across the edge of the window it is written into, and occurrences of two different needles never overlap.
- **Find and replace** (`find_replace.dfy`, module `FindReplace`). The hooking library's `findAndReplace`: a
  forward search for the first occurrence of the needle in `data[0..size)`, then an in-place overwrite with the
  replacement. It is a method on an `array` of bytes, built from a search (`Search`) and a copy (`CopyInto`) and
  proved against the specification function `Apply`.
- **Patcher** (`patcher.dfy`, module `Patcher`). `patchReporter`: four passes in table order. The method is
  proved against `Patched`. Lemmas about `Patched` cover length, frame, no-op, exact replacement and
  idempotence.
- **Path filter** (`path_filter.dfy`, module `PathFilter`). `matchReporterPath`: C's `strncmp` against the
  reference path, over the reference's `strlen`, which is 62. The result is proved to be exactly "the path
  starts with those 62 characters".
- **Interceptors and selector** (`interceptor.dfy`, module `Interceptor`). The two wrappers around the kernel's
  validators, and the start action that picks one route request by kernel version.
  - The original validators and `vn_getpath` are opaque kernel code. They are function parameters.

Patching is idempotent only if each needle occurs at most once in the buffer. Each pass replaces only the first
occurrence of its needle, so a buffer holding a needle twice is changed again by a second run.
`PatchNotIdempotentOnRepeats` proves this for "AppleSDXC\0AppleSDXC\0".

## Model

| member | source | states |
|---|---|---|
| `Patterns.Table` | RealtekCardReaderFriend/RealtekCardReaderFriend.cpp:26-110 | four entries in the patcher's order; needle lengths 10, 14, 39 and 36; each replacement has its needle's length |
| `Patterns.NeedlesLackReplacementStarts` | RealtekCardReaderFriend/RealtekCardReaderFriend.cpp:26-110 | no needle contains 'W' or 's', the first bytes of the replacements |
| `Patterns.ReplacementsLackNeedleStarts` | RealtekCardReaderFriend/RealtekCardReaderFriend.cpp:26-110 | no replacement contains 'A'; only the Realtek bundle identifier contains 'c', and never followed by 'o' |
| `Patterns.TableApart` | RealtekCardReaderFriend/RealtekCardReaderFriend.cpp:26-110 | every needle ends in its only NUL, and any two different needles differ in one of the two bytes before it, so their occurrences cannot overlap |
| `Patterns.TableNoCross` | RealtekCardReaderFriend/RealtekCardReaderFriend.cpp:26-110 | for every needle and every replacement of the table, writing the replacement cannot form that needle across the window's edge |
| `FindReplace.FirstFrom` | RealtekCardReaderFriend/RealtekCardReaderFriend.cpp:125-131 | the result is an occurrence at or after `from` with none between `from` and it; None means there is no occurrence at or after `from` |
| `FindReplace.First` | RealtekCardReaderFriend/RealtekCardReaderFriend.cpp:125-131 | None exactly when the needle does not occur; otherwise the earliest occurrence |
| `FindReplace.Overwrite` | RealtekCardReaderFriend/RealtekCardReaderFriend.cpp:125-131 | same length as the input; the window reads the replacement; every byte outside the window is unchanged |
| `FindReplace.ApplySpec` | RealtekCardReaderFriend/RealtekCardReaderFriend.cpp:125-131 | one pass keeps the length; it is a no-op without the needle; otherwise it writes the replacement over the first occurrence and nothing else |
| `FindReplace.Search` | RealtekCardReaderFriend/RealtekCardReaderFriend.cpp:125-131 | reports whether the needle occurs in `data[0..size)` and, when it does, the offset of its first occurrence |
| `FindReplace.CopyInto` | RealtekCardReaderFriend/RealtekCardReaderFriend.cpp:125-131 | the array afterwards is the old contents with the replacement written over the window and nothing else changed |
| `FindReplace.FindAndReplace` | RealtekCardReaderFriend/RealtekCardReaderFriend.cpp:125-131 | returns true iff the needle occurs in `data[0..size)`; the new `data[0..size)` is `Apply` of the old one; bytes at and past `size` are untouched |
| `FindReplace.OverwriteElsewhere` | RealtekCardReaderFriend/RealtekCardReaderFriend.cpp:125-131 | an overwrite leaves every slice clear of its window as it was |
| `FindReplace.OccurrencesApart` | RealtekCardReaderFriend/RealtekCardReaderFriend.cpp:26-110 | occurrences of two NUL-terminated needles that differ in one of the two bytes before the NUL never share a byte |
| `FindReplace.PassKeepsClearWindow` | RealtekCardReaderFriend/RealtekCardReaderFriend.cpp:125-131 | a pass whose first occurrence lies clear of a window leaves that window as it was |
| `FindReplace.OverwriteCreatesNoNeedle` | RealtekCardReaderFriend/RealtekCardReaderFriend.cpp:125-131 | under NoCross, every occurrence of the needle after an overwrite was there before and lies clear of the window |
| `Patcher.ApplyAll` | RealtekCardReaderFriend/RealtekCardReaderFriend.cpp:121-132 | the passes never change the buffer's length |
| `Patcher.ChangesOnlyInWindows` | RealtekCardReaderFriend/RealtekCardReaderFriend.cpp:121-132 | every overwritten window lies inside the buffer; a byte outside every window where a needle was found is unchanged |
| `Patcher.NoNeedleNoChange` | RealtekCardReaderFriend/RealtekCardReaderFriend.cpp:121-132 | a buffer containing none of the needles is returned unchanged and no window is touched |
| `Patcher.SoleNeedleReplaced` | RealtekCardReaderFriend/RealtekCardReaderFriend.cpp:121-132 | if only one entry's needle is present, the result is the input with exactly that needle's first occurrence overwritten |
| `Patcher.NoNewOccurrences` | RealtekCardReaderFriend/RealtekCardReaderFriend.cpp:121-132 | patching creates no occurrence of a needle that no replacement can help form |
| `Patcher.PatchingClearsNeedles` | RealtekCardReaderFriend/RealtekCardReaderFriend.cpp:121-132 | if each needle occurs at most once, no needle remains after the passes |
| `Patcher.TableNeedleReplaced` | RealtekCardReaderFriend/RealtekCardReaderFriend.cpp:121-132 | a buffer holding one table needle (first at `i`) and none of the others comes out with that window reading the replacement and every other byte unchanged |
| `Patcher.OccurrenceSurvives` | RealtekCardReaderFriend/RealtekCardReaderFriend.cpp:121-132 | an occurrence of a needle that cannot overlap any needle of the passes is still there after the passes |
| `Patcher.StageKeepsNeedles` | RealtekCardReaderFriend/RealtekCardReaderFriend.cpp:121-132 | the buffer that pass `k` searches holds needle `k` at exactly the offsets where the input holds it, so the pass finds it iff the input holds it, first at the same offset |
| `Patcher.PassesSeeInputNeedles` | RealtekCardReaderFriend/RealtekCardReaderFriend.cpp:125-131 | each of the four passes finds its needle iff the input holds that needle |
| `Patcher.WindowKeepsReplacement` | RealtekCardReaderFriend/RealtekCardReaderFriend.cpp:121-132 | the window a pass overwrites still reads its replacement after any later passes that write clear of it |
| `Patcher.TableWindowReplaced` | RealtekCardReaderFriend/RealtekCardReaderFriend.cpp:121-132 | whatever else the buffer holds, the first occurrence of each needle in the input reads that needle's replacement after patching |
| `Patcher.ControllerNameScenario` | RealtekCardReaderFriend/RealtekCardReaderFriend.cpp:26-34 | the buffer "AppleSDXC\0" is patched to "WolfsSDXC\0" |
| `Patcher.BundleIdentifierScenario` | RealtekCardReaderFriend/RealtekCardReaderFriend.cpp:85-110 | the 36-byte "com.apple.driver.AppleUSBCardReader\0" block is patched to "science.firewolf.rtsx" zero-padded to 36 bytes |
| `Patcher.PatchIdempotent` | RealtekCardReaderFriend/RealtekCardReaderFriend.cpp:121-132 | if each needle occurs at most once, no needle survives patching, and patching the result again changes nothing |
| `Patcher.PatchNotIdempotentOnRepeats` | RealtekCardReaderFriend/RealtekCardReaderFriend.cpp:125 | "AppleSDXC\0AppleSDXC\0" patches to "WolfsSDXC\0AppleSDXC\0" and then to "WolfsSDXC\0WolfsSDXC\0" |
| `Patcher.PatchReporter` | RealtekCardReaderFriend/RealtekCardReaderFriend.cpp:121-132 | the new `data[0..size)` is `Patched` of the old; nothing at or past `size` changes; flag `k` is true iff the input `data[0..size)` holds needle `k`, which is exactly when pass `k` finds it |
| `PathFilter.Strlen` | RealtekCardReaderFriend/RealtekCardReaderFriend.cpp:18 | the result is the offset of the first NUL, or the length when there is none |
| `PathFilter.Strncmp` | RealtekCardReaderFriend/RealtekCardReaderFriend.cpp:118 | zero iff the two strings agree on every one of the first `n` characters, up to and including the first string's NUL |
| `PathFilter.ReporterPathLength` | RealtekCardReaderFriend/RealtekCardReaderFriend.cpp:16-18 | the reference path holds no NUL; its strlen is its length, 62 |
| `PathFilter.MatchReporterPath` | RealtekCardReaderFriend/RealtekCardReaderFriend.cpp:116-119 | true iff the path is at least 62 characters long and begins with exactly the reference path (case-sensitive) |
| `PathFilter.MatchExamples` | RealtekCardReaderFriend/RealtekCardReaderFriend.cpp:116-119 | the reference path and any extension of it match; the reference minus its last character, a case variant and "/Applications/Foo.app" do not |
| `Interceptor.WrapCSValidateRange` | RealtekCardReaderFriend/RealtekCardReaderFriend.cpp:141-155 | returns exactly the original's verdict and `*result`, computed on the unpatched bytes; patches `data[0..size)` iff the verdict is true, the path lookup returned 0 and the filter matched |
| `Interceptor.WrapCSValidatePage` | RealtekCardReaderFriend/RealtekCardReaderFriend.cpp:160-172 | passes back the original's three flags untouched; patches exactly the first PAGE_SIZE bytes iff the path lookup returned 0 and the filter matched, whatever the flags |
| `Interceptor.SelectRequest` | RealtekCardReaderFriend/RealtekCardReaderFriend.cpp:197-217 | the `_cs_validate_page` request iff the kernel is Big Sur or later, else the `_cs_validate_range` request; symbol and wrapper always belong together |
| `Interceptor.OnPatcherLoad` | RealtekCardReaderFriend/RealtekCardReaderFriend.cpp:215-223 | submits the selected request and only that one; the outcome is Routed iff the router accepts it, otherwise the failure is only logged |

## Left out

- Routing through the hooking library (`routeMultipleLong`, the trampolines, `onPatcherLoadForce`) is not part of this model. The router is a parameter of `OnPatcherLoad`. Which request is chosen is modelled.
- `vn_getpath` and the original `cs_validate_range` and `cs_validate_page` are kernel code and are not part of this model. They are function parameters.
  - A path lookup that fails, including one whose path does not fit in the `PATH_MAX` buffer, is a non-zero status.
  - The originals are pure functions of their arguments. They are assumed not to write the bytes (the parameter is declared `const`). Any other kernel state they read is not modelled.
- The library's `findAndReplace` is not part of this model. It is modelled as a first-occurrence search plus a same-length overwrite that always succeeds once the needle is found. The library's handling of write permission is not captured.
- Diagnostics (`SYSLOG`, `SYSLOG_COND`, `DBGLOG`) are not modelled as output.
  - `PatchReporter` returns the four conditions under which the source logs.
  - `OnPatcherLoad` returns `RouteFailed` where the source logs a routing failure.
- The boot arguments and the `PluginConfiguration` record (supported kernel range, start callback) are plugin lifecycle data and are left out.
- Concurrency is left out. The wrappers run in parallel on independent buffers and share no mutable state. The `const_cast` of the data pointer is a platform detail.
- `PageSize` is 4096, the x86_64 kernel page size. `BigSur` is Darwin major version 20. Both constants come from headers outside the repository.
- Patcher.PatchIdempotent: requires that each needle occur at most once. Without that condition the property is false (`PatchNotIdempotentOnRepeats`).
- Patcher.TableNeedleReplaced: requires that the other three needles be absent, because it also states that every other byte is unchanged. Without that condition their passes change bytes too (`ChangesOnlyInWindows`), while `TableWindowReplaced` still gives the replaced window.
- PathFilter.Strncmp: only states when the result is zero, not its sign. The filter only tests for zero.
- PathFilter.MatchReporterPath: paths are sequences of characters compared by code. The byte encoding of file names is not modelled.
