# D3L utility core in Dafny

D3L is a small C++ utility library. This project models four of its routines
and proves what they do.

- `d3l_str_erase` and `d3l_str_replace` (module `StrOps`, `strings.dfy`).
  - Erase removes a pattern until none is left. After every removal it
    searches again from the start.
  - Replace works left to right. It resumes the search just after the text it
    inserted, so inserted text is never searched again.
  - `std::string::find` is the total function `Find`.
  - The in/out `std::string&` becomes an input and a result.
- `d3l_dop_create` (module `DirOps`, `dirs.dfy`).
  - It creates every directory along a path. It copies the path one character
    at a time into a zero-filled buffer of `strlen + 1` characters.
  - At each "checkpoint" it calls `access`. A checkpoint is a position holding
    a '/' or the last character of the path.
  - If `access` fails, it calls `mkdir`. Each outcome is written to the error
    channel, and the function returns 0.
  - The file system is the `Host` class, which holds the set of existing names
    and the log of reports. `access` with `F_OK` succeeds for any existing
    entry, so a regular file of that name is reported as already existing.
  - Which names `mkdir` can create is a set the caller supplies.
- `d3l_sys_time` and `d3l_sys_time_up` (module `SysTime`, `systime.dfy`).
  - These format a time stamp into a fresh 35-byte buffer and an elapsed time
    into a fresh 50-byte buffer.
  - The `%4d`, `%02d` and `%8ld` conversions follow section 7.21.6.1 of ISO C11.
  - `ParseInt` and `ParseTime` read the text back, so the layout can be stated
    as a round trip. The padding of each field (zeros for `%02d`, spaces for
    `%8ld`) is stated on its own, since reading back accepts both.
- C strings (module `CText`, `cstr.dfy`). A character buffer holds the text
  before its first NUL.
- `Option` (module `Options`, `option.dfy`), shared by the search and the parsers.

Points of the code's behaviour that the model keeps:

- Checkpoints include the '/' itself, because the character is copied into
  the buffer before the test (d3l.cpp:435-436): "abc/def/ghi" checks "abc/",
  "abc/def/" and "abc/def/ghi", and "abc/" checks only "abc/".
- An empty path is accepted and checks nothing.
- The comments of the routines document "<0 Failed", but `d3l_dop_create`,
  `d3l_str_erase`, `d3l_str_replace` and both time routines return 0 on every
  path.

## Model

| member | source | states |
|---|---|---|
| StrOps.Find | d3l.cpp:477 | a found position is at or after the start and leaves room for the pattern |
| StrOps.FindFound | d3l.cpp:477 | the pattern occurs at the position `find` returns |
| StrOps.FindNone | d3l.cpp:477 | `npos` means the pattern occurs nowhere from the start position on |
| StrOps.FindLeast | d3l.cpp:495 | `find` returns the leftmost occurrence at or after the start position |
| StrOps.FindSuffix | d3l.cpp:495 | searching from k is searching the suffix from k, shifted by k |
| StrOps.EraseAll | d3l.cpp:474-482 | after erasing, no occurrence of the pattern is left, and the text never grows |
| StrOps.EraseAllUnchangedIff | d3l.cpp:474-482 | the text is unchanged exactly when the pattern does not occur in it |
| StrOps.EraseAllIdempotent | d3l.cpp:474-482 | erasing a second time changes nothing |
| StrOps.EraseStep | d3l.cpp:477-480 | one erase of the leftmost match shortens the text and leaves the final result the same, so the loop terminates |
| StrOps.EraseAllRescans | d3l.cpp:477 | re-searching from 0 removes matches that a removal creates: "aabb" minus "ab" is "" |
| StrOps.Erase | d3l.cpp:474-482 | the loop leaves exactly `EraseAll` of the input and returns 0 |
| StrOps.ReplaceAll | d3l.cpp:492-501 | the reference result: text before the leftmost match, the replacement, then the rest after the match done the same way; its meaning is given by the lemmas below |
| StrOps.ReplaceAllIsScan | d3l.cpp:492-501 | replace-all equals a character-by-character scan that replaces each match where it starts and skips past it |
| StrOps.Count | d3l.cpp:492-501 | the number of replaced matches is zero exactly when the pattern is absent |
| StrOps.ReplaceAllAbsent | d3l.cpp:492-501 | without a match the text is unchanged |
| StrOps.ReplaceAllLength | d3l.cpp:497 | each replacement changes the length by the difference of the two pattern lengths |
| StrOps.ReplaceAllIdentity | d3l.cpp:492-501 | replacing a pattern by itself changes nothing |
| StrOps.ReplaceAllCopies | d3l.cpp:492-501 | n copies of the source pattern become n copies of the replacement |
| StrOps.ReplaceAllSkipsInserted | d3l.cpp:498 | inserted text is not searched again: "aaa" with "a" to "aa" gives "aaaaaa" and terminates |
| StrOps.ReplaceAllDoesNotRescan | d3l.cpp:495-498 | replace with "" does not remove matches it creates, unlike erase: "aabb" gives "ab" by replace and "" by erase |
| StrOps.Replace | d3l.cpp:492-501 | the loop leaves exactly `ReplaceAll` of the input and returns 0 |
| CText.CStr | d3l.cpp:432-438 | a buffer's C string is its longest NUL-free prefix, followed by a NUL unless the buffer runs out |
| CText.CStrPadded | d3l.cpp:51-57 | text written at the start of a zero-filled buffer with room for its NUL is the buffer's C string |
| CText.NewText | d3l.cpp:51-57 | a fresh zero-filled buffer of the given size with the text written at its start: the buffer holds the text as its C string |
| DirOps.Message | d3l.cpp:442-458 | each report starts with the fixed head; the failure report names no directory; the other two put the name right after the head |
| DirOps.BufferHoldsPrefix | d3l.cpp:432-435 | a zero-filled buffer holding the first k characters of the path holds the prefix of length k as its C string |
| DirOps.Checkpoints | d3l.cpp:433-436 | the names checked while scanning the first k characters, in scan order; its meaning is given by the lemmas below |
| DirOps.CheckpointsSound | d3l.cpp:436 | every checkpoint is a prefix of the path ending at a '/' or at its last character |
| DirOps.CheckpointsComplete | d3l.cpp:436 | every such prefix is a checkpoint |
| DirOps.CheckpointsExactly | d3l.cpp:436 | a name is checked exactly when it is such a prefix |
| DirOps.CheckpointsIncreasing | d3l.cpp:433-462 | checkpoints come in strictly increasing length |
| DirOps.CheckpointCount | d3l.cpp:436 | a non-empty path has one checkpoint per '/' before its last character, plus one |
| DirOps.LastCheckpointIsPath | d3l.cpp:436 | the empty path has no checkpoint; otherwise the last checkpoint is the whole path |
| DirOps.CheckpointsExample | d3l.cpp:435-436 | "abc/def/ghi" checks "abc/", "abc/def/", "abc/def/ghi"; the trailing '/' of "abc/" gives the single checkpoint "abc/" |
| DirOps.CheckpointsDistinct | d3l.cpp:433-462 | no name is checked twice |
| DirOps.Step | d3l.cpp:438-459 | the outcome is "already exists" exactly when the name exists; afterwards the name exists exactly when it existed or could be created; no other name changes |
| DirOps.Run | d3l.cpp:436-460 | one outcome per checkpoint; no existing name disappears |
| DirOps.RunNames | d3l.cpp:438-459 | the i-th outcome names the i-th checkpoint |
| DirOps.RunDirs | d3l.cpp:438-440 | afterwards a name exists exactly when it existed or is a checkpoint that could be created |
| DirOps.RunOutcomes | d3l.cpp:438-459 | for distinct names, each checkpoint's outcome depends only on the initial state, so a failed mkdir does not stop the scan; paths with an empty, "." or ".." segment fall outside this (see "## Left out") |
| DirOps.Walk | d3l.cpp:433-462 | the effect of the per-character loop after k characters, the invariant of `CreateAll` |
| DirOps.WalkIsRun | d3l.cpp:433-462 | the per-character loop performs the checkpoint steps in order and nothing else |
| DirOps.CreateEffect | d3l.cpp:428-465 | the effect of one whole call: the per-character loop run over the full path |
| DirOps.CreateEffectSpec | d3l.cpp:428-465 | among the modelled names, the new ones are exactly the creatable checkpoints; each outcome is exists, created or failed as the initial state decides, for paths whose checkpoints name distinct entries |
| DirOps.CreateTwice | d3l.cpp:428-465 | once every checkpoint exists, a second call adds nothing and reports every checkpoint as already existing |
| DirOps.Host.Access | d3l.cpp:438 | `access(F_OK)` succeeds exactly for an existing name |
| DirOps.Host.Mkdir | d3l.cpp:440 | `mkdir` adds the name when it is new and creatable; otherwise it fails and changes nothing |
| DirOps.Host.Report | d3l.cpp:22-36 | `d3l_sys_err` appends one report to the log; the modelled names do not change |
| DirOps.Host.Visit | d3l.cpp:438-459 | mkdir is tried only after access fails; exactly one outcome is logged |
| DirOps.Host.CreateAll | d3l.cpp:428-465 | the names and log become those of the checkpoint run, the buffer writes stay in bounds, and the result is 0 |
| SysTime.Digits | d3l.cpp:57-58 | the decimal text of a value is a non-empty string of digits |
| SysTime.DigitsValue | d3l.cpp:57-58 | the decimal text reads back as the value |
| SysTime.Conv | d3l.cpp:57-58 | a `%Wd` or `%0Wd` conversion is never shorter than its width; its meaning is given by the lemmas below |
| SysTime.Signed | d3l.cpp:110-111 | the text of `%d` without a width is non-empty and starts with '-' exactly for a negative value |
| SysTime.ConvSpacePadded | d3l.cpp:110-111 | `%Wd` is the unpadded text with spaces in front up to the width |
| SysTime.ConvExamples | d3l.cpp:57-58 | `%0Wd` puts zeros after the sign; `%Wd` puts spaces before it; a longer text is not cut |
| SysTime.ConvRoundTrip | d3l.cpp:57-58 | every `%Wd` and `%0Wd` conversion reads back as the converted value |
| SysTime.ConvWidth | d3l.cpp:57-58 | a non-negative value below 10^W fills a width-W field exactly, all digits when zero-padded |
| SysTime.ConvFits | d3l.cpp:110-111 | a signed value that fits the field, sign included, fills it exactly |
| SysTime.FormatTime | d3l.cpp:57-58 | the time stamp text for the broken-down time; its meaning is given by the lemmas below |
| SysTime.FormatTimeLayout | d3l.cpp:57-58 | for years 1000 to 9999 the stamp is 29 characters, fits the 35-byte buffer, has no line break, reads back as its fields, and every number is written in digits only |
| SysTime.FormatTimeDigits | d3l.cpp:57-58 | for years 1000 to 9999 the year fills four places with digits and the `0` flag pads the other five fields with zeros, never spaces |
| SysTime.FormatTimePlain | d3l.cpp:57-58 | the stamp holds no NUL and no line break, for every field value |
| SysTime.FormatTimeOverflow | d3l.cpp:51-58 | a year of 2147483647 makes the stamp 35 characters, so the NUL is written past the 35-byte buffer |
| SysTime.SysTimeText | d3l.cpp:44-60 | a fresh 35-byte buffer whose C string is the stamp; returns 0 |
| SysTime.CostText | d3l.cpp:110-111 | the elapsed-time line for the two differences; its meaning is given by the lemmas below |
| SysTime.CostTextLayout | d3l.cpp:110-111 | when both differences fit 8 characters the line is 42 characters, ends in a line break, holds "D3l:Cost time: ", " sec " and " usec" at their fixed places, each field is spaces followed by the unpadded number, and the two numbers read back as the differences |
| SysTime.CostFieldsTotal | d3l.cpp:110-111 | the two numbers read back from the line combine to the elapsed time in microseconds |
| SysTime.CostTextNegativeUsec | d3l.cpp:111 | the microsecond field is not normalised: 0.2 s across a second boundary prints 1 sec and -800000 usec |
| SysTime.CostTextPlain | d3l.cpp:110-111 | the elapsed-time line holds no NUL |
| SysTime.SysTimeUpText | d3l.cpp:95-113 | a fresh 50-byte buffer whose C string is the line for the end-minus-start differences; returns 0 |

## Left out

- The charset conversion routines are not modelled: they are a wrapper around iconv. Three points in them are worth knowing:
  - The open result is compared with 0, not with `(iconv_t)-1` (d3l.cpp:231-232).
  - When the conversion fails, the function returns -1 without calling `iconv_close`, so the handle leaks (d3l.cpp:239-245).
  - The string variants ignore the status they get back.
- Logging and I/O are not modelled (but see the `Host.Report` line below). `d3l_sys_err` is the `Host.Report` method that appends an `Outcome` to a log. `Message` gives the text each outcome is reported with; the time-stamp prefix and the output stream are left out.
- The file operations (`d3l_fop_*`) are not modelled. They are thin wrappers around system calls. `d3l_fop_access` ignores its `mode`, and `d3l_fop_size` does not check for NULL.
- Directory listing is not modelled. It is a wrapper around `readdir`, and `d3l_dop_filenum` never closes its `DIR*`.
- Also not modelled: `d3l_charset_printc`, the stringstream converters, the memory helpers, reading the clocks (`time`, `localtime`, `gettimeofday`) and `d3l_sys_time_begin`. These are wrappers or foreign calls. The clock values are parameters instead.
- Path names are not normalised: "abc/" and "abc" are different names. `mkdir` and `access` receive the name with its trailing '/'. Permissions and the parent-must-exist rule are folded into the `creatable` set.
- RunOutcomes, CreateEffectSpec: names are opaque strings, so two checkpoints that the file system resolves to the same entry are two names here. An example is `d3l_dop_create("a//b")` with nothing existing:
  - The call creates "a/".
  - `access("a//", F_OK)` then succeeds, because "a//" resolves to "a", and the program reports "a//is already exist." (d3l.cpp:438, d3l.cpp:455-458).
  - In the model "a//" is not among the names, so `Step` can only give "created" or "failed". No `creatable` set reproduces that report.
  - Paths with "." or ".." segments, such as "a/./b" and "a/b/../c", behave the same way.
  - The two lemmas describe the program only for paths whose checkpoints name distinct entries.
- Host.Report, CreateEffectSpec: `D3L_NO_WARNING` is defined (src/d3l.h:14), so every report is appended to the log file, which defaults to "d3l.log" (src/d3l.h:20). The first report creates that file in the working directory if it is missing. The file is not among the modelled names: after `d3l_dop_create("abc")` with no log present, the program's new names are "abc" and "d3l.log", but the model's are only "abc".
- Erase, Replace, EraseAll, ReplaceAll: require a non-empty pattern. With an empty pattern the source loops forever: `find("")` always succeeds. `d3l_str_erase` then spins without changing the text. `d3l_str_replace` with a non-empty `str_dest` inserts it at the cursor on every pass and moves the cursor past it, so the string grows without bound and the loop never terminates normally: it ends only when allocation throws.
- Erase, Replace: the pattern arguments are assumed not to alias the string being edited. Strings here are values, so the model cannot express the C++ case where `sub_str`, `str_src` or `str_dest` is the same object as `str` and changes with it. Two consequences:
  - `d3l_str_erase(s, s)` with a non-empty `s` never terminates: the first erase empties the pattern too. The model's `Erase` gives "".
  - `d3l_str_replace(s, "a", s)` with `s` = "aa" gives "aaa", because the replacement grows before the cursor moves. The model's `Replace` gives "aaaa".
- SysTimeText: requires the stamp to fit the 35-byte buffer. `FormatTimeOverflow` shows a field value that breaks this, and there `sprintf` writes out of bounds.
- SysTimeUpText: requires the line to fit the 50-byte buffer, for the same reason.
- SysTime.Conv: integers are unbounded. The 32-bit `int` of `tm_year + 1900` and the width of `long` are not modelled, so wrap-around on overflow is left out.
- Freeing a non-NULL incoming `*psz_time` before the new allocation is not modelled. Each time routine returns a fresh buffer.
