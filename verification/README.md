# ImageCtl: verified model

ImageCtl captures disk images from machines in a classroom network, keeps them in a library, and writes
them to many drives at once. This project models the parts of it whose correctness is hardest to see
from any one function, and proves what they promise.

- **The fan-out writer** (`Ring`, `Fanout`): one stream copied to up to eight targets through bounded
  rings. Every outcome of every `write`, `read`, `poll` and clock reading is open. A live target's
  accepted bytes followed by its ring are always the stream so far; a failed target has a prefix of it; the
  verdict printed for a target is a function of what happened to that target and of the length of the
  stream, so that one that is merely slow is ok; the queue-capacity error cannot happen; waiting for
  room ends.
- **The hashes** (`Words`, `Bits`, `Fips180`, `Fips180Constants`, `FanoutSha`, `HmacSha`, `Xxh64`, `Xxh64Wrap`):
  FIPS 180-4, RFC 2104 and the public XXH64 description written as functions. The two independent SHA-256
  implementations, HMAC and the streaming XXH64 equal them for every way of cutting the message into
  updates. The word operations are stated digit by digit, and the SHA-256 constants as the fractional parts of
  the roots of the first primes.
- **The framebuffer server** (`Layout`, `Monitor`): a seqlock reader against a GUI that may run before
  every pixel read. After any number of torn passes the clients have exactly one frame the GUI presented,
  or still the blank one they began with, and a turn in which the GUI rests shows the frame it rests on.
- **Image admission** (`Tar`, `Import`, `Admission`, `Visibility`, `NestedManifests`,
  `Capture`, `CaptureRuns`, `CaptureOverlap`): the hand-written ustar writer against a
  ustar reader, the one-pass import against the two-pass one and against what an archive must be, any number
  of concurrent imports step by step, and the life of a capture task across uploads, cancellation,
  verification and restarts.
- **The server's protocols** (`Locks`, `NetSeen`, `GrubMenu`, `BootGuard`, `AutoReboot`): the two-lock
  order and whole-or-nothing writes for any number of threads, the write throttle against always
  writing and that against what the machines said, the boot-loop budget under overlapping requests, and the
  deferring reboot scheduler, every tick of which is read off its run.

Concurrent parts are state machines whose steps interleave in any order; a crash is the end of a run, so
what holds in every reachable state holds at every crash point. Code that changes buffers, hash states,
tile flags, rows and timers in place is modelled with classes and arrays whose methods are proved against
specification functions. SHA-256 and JSON reading inside the import and capture models are arbitrary
functions, so what is proved there holds for the real ones.

## Where the code does not do what it says

Each of these is a theorem with the exact condition, or a run that shows it.

- `layout_error` computes in 64 bits, and that is not always enough: an accepted layout keeps every read
  inside the mapping if and only if `yoffset + yres <= 2^32` (`Layout.AcceptedIsSafeIff`, `Layout.WrapAccepted`).
- A member name with a backslash makes the one-pass import place a file where the two-pass import does
  not (`Import.AgreesIff`, `Import.BackslashExample`).
- A visible image is not always a verified one. The library serves valid manifests at any depth, as long as
  no other claims the same id (`server/images.py:461-483`), and the import parks and checks only the outer
  one. In every run every image the library serves is verified if and only if no import that can get in
  brings, under an id nothing in the library claims, a second valid manifest or a partition named
  `manifest.unverified` that passes the comparison and is then consumed by the closing rename
  (`Visibility.VisibleIsVerifiedIff`, `NestedManifests.NestedExample`, `Import.ReservedNameSplits`,
  `Import.ReservedExample`). An import can get in if its id is free, or if one that can get in carries a
  second manifest of its id, which takes the id off the list (`Visibility.ChainEnters`,
  `Visibility.CheckedCanEnter`). Second manifests can be read off the archive
  (`NestedManifests.DoublesIffMember`).
- An image that the library serves can stop being served although its files stay: if and only if an import
  that can get in carries a second manifest of its id (`Visibility.StaysServedIff`).
- The ustar writer emits wider fields for sizes and times past eleven octal digits, and a sign for times
  before 1970; the archive is readable if and only if every number fits (`Tar.TarStream`).
- Overlapping requests for one capture task can put an image into the library that does not match its
  manifest: if and only if, when the uploads are closed, some other request still has a file of the manifest
  open, is past its open-task check with a manifest nobody has looked at, has one in hand that does not match
  or whose files are still open, or is removing the staging folder (`CaptureOverlap.OverlapHarmsIff`). Runs
  from the beginning: `Capture.OverlapAdmitsUnverified`, `CaptureOverlap.TwoManifestsAdmitUnverified`.
- The comment at `server/capture.py:680` says that a failed verification leaves the image outside the
  library. It does if and only if the verifier had not yet renamed it (`Capture.FailedButInIff`,
  `Capture.FailedThoughEntered`).
- An operation that takes `_write_lock` without settling, entered with SQLite's write lock in hand, can
  close a wait cycle, and no other entry can (`Locks.EntryDeadlocksIff`). `bootguard._record` and the
  `with _write_lock, writing(...)` blocks of `server/capture.py` do not settle, so they rely on their callers.
- `server/bootguard.py:20-22` says cloners are never counted. The code counts a cloner that has a task or
  session id (`BootGuard.ClonersAreCounted`); its menu is the same either way. A cloner is kept off its
  drives if and only if answering its request does not raise, because `boot/http.py:88-92` then serves the
  local-disk file to any machine (`BootGuard.ClonerKeepsOffDisks`).
- A tick of the reboot scheduler that fails after its reboot command reboots again for the same occurrence
  (`AutoReboot.LateFaultRebootsAgain`); without such a failure it does not (`AutoReboot.RebootsOncePerDue`).
- `parse_time` accepts a minus sign and a digit for the hour or the minute, as in "-1:05". With such a
  stored time every tick raises and the server is never rebooted; under stored settings that are on it can
  be rebooted if and only if the accepted time has no minus sign (`AutoReboot.MinusIsAccepted`,
  `AutoReboot.SettingsRebootIff`).
- The XXH64 byte counter wraps at 2^64, and `xxh_digest` then can take a long message for a short one. The
  digest is right if and only if the counter still tells whether there was a whole stripe, or the lanes
  converge to the constant of a short message (`Xxh64Wrap.DigestRightIff`); any message 32 bytes short of a
  multiple of 2^64 has a continuation with a wrong digest (`Xxh64Wrap.WrongFor`).

## Model

| member | source | states |
|---|---|---|
| Ring.Append | agent/fanout.c:522-539 | copying a block behind the queued bytes, split where the buffer ends, appends it to what the ring holds, for every head, fill and length that fits |
| Ring.Remove | agent/fanout.c:544-550 | bytes taken at `head` are the oldest ones, and the rest stays in order across the wrap |
| Ring.CopyIn | agent/fanout.c:530-536 | the two `memcpy` calls leave the buffer that Ring.Append speaks of |
| Fanout.Machine.NowMs | agent/fanout.c:625-630 | the clock is monotonic and may move by any amount |
| Fanout.Machine.Poll | agent/fanout.c:609-623 | a wait moves the clock or is one of finitely many early returns |
| Fanout.Target.constructor | agent/fanout.c:795-821 | a target starts with an empty ring and an empty delivery, its stall clock at the time of opening, and is live exactly when it could be opened |
| Fanout.Target.Fail | agent/fanout.c:505-517 | the first failure is kept, the buffer is given up, a failed target is left alone |
| Fanout.Target.Write | agent/fanout.c:548 | `write` accepts any count up to what was offered, would block, is interrupted, or fails; the target's history records the failures and the last accepted byte |
| Fanout.Target.Enqueue | agent/fanout.c:522-539 | a block that fits is appended to the ring's contents; one that does not fit fails the target and queues nothing |
| Fanout.Target.Credit | agent/fanout.c:551-553 | an accepted write counts its bytes and resets the stall clock |
| Fanout.Target.Advance | agent/fanout.c:549-553 | accepted bytes leave the front of the ring and are counted |
| Fanout.Target.FlushOnce | agent/fanout.c:545-561 | one write from the ring: bytes taken leave it, a full pipe ends the flush with the target live, an interrupted call is repeated, and only a failed one fails the target |
| Fanout.Target.SendOnce | agent/fanout.c:577-590 | the same for one write straight from the read buffer |
| Fanout.Target.EnqueueRest | agent/fanout.c:592-597 | what the pipe did not take waits behind what is queued and is pushed until the pipe is full; delivery and history still agree |
| Fanout.Target.Flush | agent/fanout.c:542-563 | for every outcome of every write the delivery rule is kept, and a target is failed only if a write failed or took nothing; it stops with an empty ring, a full pipe or a write error; the stall clock moves only if a byte left |
| Fanout.Target.SendChunk | agent/fanout.c:574-597 | the direct write, the queued rest and the flush together extend the delivery by exactly the chunk; a failed target is untouched, and none is failed but for a failed write |
| Fanout.Target.Serve | agent/fanout.c:713-727 | one turn leaves room, or a target to wait for, or evicts one that is too full, whose last write would have blocked, and that took nothing for the stall period; nothing else fails a target |
| Fanout.LoadDrops | agent/fanout.c:709-733 | a pass over the targets lowers the queued total or leaves every live stall clock where it was |
| Fanout.Pass | agent/fanout.c:711-728 | one pass treats every target on its own: each keeps the delivery rule and is only drained or failed for one of the two allowed reasons |
| Fanout.MakeRoom | agent/fanout.c:709-733 | it terminates, and then every live target has n bytes free; a target is failed there only for a write error or as hung |
| Fanout.Dispatch | agent/fanout.c:874-875 | handing a chunk to every target extends every live delivery by that chunk and never meets the capacity error |
| Fanout.Stdin.Read | agent/fanout.c:849-861 | a read returns any non-empty piece, end of file only when nothing is left, an interruption or an error |
| Fanout.AliveCount | agent/fanout.c:599-606 | zero exactly when every target has failed |
| Fanout.Digests.Update | agent/fanout.c:863-866 | the wanted digests follow the dispatched stream |
| Fanout.Digests.WriteFiles | agent/fanout.c:885-927 | each wanted digest file holds the digest of the whole stream, and exactly which files are written and when it gives up, by which of them cannot be written |
| Fanout.Copy | agent/fanout.c:862-875 | hashing, waiting and dispatching one chunk keeps every delivery and both digests equal to the stream so far |
| Fanout.Pump | agent/fanout.c:845-878 | what was dispatched followed by what is unread is the input, through every interleaving of reads, waits and failures; it stops at the end, at a failed read, or exactly when nobody is left, and then reads no further |
| Fanout.CheckLength | agent/fanout.c:935-951 | a live target is failed exactly for a length that is not the expected one or, with none expected, an empty stream; a failed one keeps its reason |
| Fanout.FailAll | agent/fanout.c:944-949 | every live target gets the reason, every failed one keeps its own |
| Fanout.Verdicts | agent/fanout.c:957-998 | the line of a target says ok exactly if it was alive and neither fsync nor close failed, and otherwise the first reason |
| Fanout.Target.Conclude | agent/fanout.c:966-995 | fsync and then close decide the line of a live target; a failed target keeps its reason |
| Fanout.VerdictSteps | agent/fanout.c:935-995 | the length check, fsync and close, applied in that order to what the stream left, are the verdict stated at once for the whole history |
| Fanout.Conclude | agent/fanout.c:935-998 | the lines are the verdicts of the targets' histories, honest about what they took |
| Fanout.ExitCode | agent/fanout.c:957-998 | exit 0 exactly when every line says ok, and otherwise 1 |
| Fanout.Finish | agent/fanout.c:929-998 | draining, the length check and the verdicts print for every target the verdict of its history, honestly, and exit 0 exactly when all are ok |
| Fanout.RunTargets | agent/fanout.c:822-998 | from open targets to exit: the verdict of every history against the whole input, digest files of those same bytes, and exit 2 exactly for a failed read or a digest file that could not be written |
| Fanout.OpenAll | agent/fanout.c:795-821 | targets are independent objects with their own buffers; one that could not be opened starts out failed |
| Fanout.FanOut | agent/fanout.c:780-998 | the whole program: the line of a target is ok exactly if it opened, no write failed, it never took nothing for the stall period while the reader waited, the length is right, and fsync and close succeeded, and then it took exactly the input; otherwise the line is the first reason and it took a prefix; exit 2 exactly for bad usage, a failed read or an unwritable digest file; input is left unread only if every target failed |
| Words.BitsBounded | agent/hmac_sha256.c:28-30 | bitwise operations on numbers below 2^n stay below 2^n |
| Words.BeByShifts | agent/fanout.c:303 | writing `bits >> 8i` from the end backwards is the big-endian field |
| Words.ValueOfBe | agent/fanout.c:303 | a big-endian field reads back as the number it was written from, if it is wide enough |
| Words.CountAdds | agent/fanout.c:280 | the wrapping byte counter is the length modulo 2^64 |
| Bits.XorBit | agent/fanout.c:234-235 | a binary digit of an exclusive-or is the sum of the two digits modulo 2 |
| Bits.AndBit | agent/fanout.c:235 | a digit of a conjunction is 1 exactly when both are |
| Bits.NotBit | agent/fanout.c:235 | a digit of a complement is the other digit |
| Bits.RotrBit | agent/fanout.c:232 | digit i of a word rotated right by n is digit i + n modulo 32 of the word |
| Bits.ShrBit | agent/fanout.c:254-255 | digit i of a word shifted right by n is digit i + n, and 0 past the top |
| Bits.BitsDecide | agent/hmac_sha256.c:28-30 | a number below 2^n is determined by its n digits |
| Fips180.LengthFieldExact | agent/fanout.c:295-303 | below 2^61 bytes the 64-bit length field is the exact bit length of section 5.1.1 of FIPS 180-4 |
| Fips180.ZeroCount | agent/fanout.c:296-302 | the number of zero bytes is the one below 64 that ends the length field on a block boundary |
| Fips180.AbsorbAppend | agent/fanout.c:277-290 | absorbing two runs of blocks is absorbing their concatenation |
| Fips180.Words64 | agent/fanout.c:251-256 | the schedule loop computes the message schedule of section 6.2.2 of FIPS 180-4 |
| Fips180.Serialize | agent/fanout.c:305-308 | the digest bytes are the eight words, big-endian |
| Fips180Constants.ChBit | agent/fanout.c:235 | the choice function takes each digit from its second or third argument as the first says |
| Fips180Constants.MajBit | agent/fanout.c:237 | the majority function takes the digit that two of three have |
| Fips180Constants.BigSigmaBits | agent/fanout.c:234-236 | each digit of the two large sums is the sum of three digits modulo 2, at the rotations of section 4.1.2 of FIPS 180-4 |
| Fips180Constants.SmallSigmaBits | agent/fanout.c:254-255 | the same for the two sums of the message schedule, with a shift in place of the third rotation |
| Fips180Constants.FirstPrimes | agent/fanout.c:221-230 | every P(t) is prime |
| Fips180Constants.PrimesRise | agent/fanout.c:221-230 | they rise |
| Fips180Constants.NoOtherPrime | agent/fanout.c:221-230 | and no prime up to the last is missing, so they are the first sixty-four |
| Fips180Constants.RoundConstants | agent/fanout.c:221-230 | section 4.2.2 of FIPS 180-4: round constant t is the first 32 bits of the fractional part of the cube root of the t-th prime |
| Fips180Constants.InitialValues | agent/fanout.c:267-275 | section 5.3.3: the initial words are the first 32 bits of the fractional parts of the square roots of the first eight primes |
| FanoutSha.SameTable | agent/fanout.c:221-230 | the fan-out writer's own table is that of the standard |
| HmacSha.SameTable | agent/hmac_sha256.c:9-26 | so is the monitor's |
| FanoutSha.ShaRound | agent/fanout.c:233-239 | one macro round with any assignment of the registers is one round of section 6.2.2 read in renamed order |
| FanoutSha.Sha256.constructor | agent/fanout.c:267-275 | a new state has taken in the empty message |
| FanoutSha.Sha256.CompressBlock | agent/fanout.c:247-265 | the unrolled, renamed rounds are the compression function |
| FanoutSha.Sha256.FillTail | agent/fanout.c:281-287 | a partial block is completed first, and compressed only when full |
| FanoutSha.Sha256.Update | agent/fanout.c:277-290 | after any sequence of updates the state stands for the concatenation, `tail_len` is the total modulo 64, and whole blocks were compressed from the input |
| FanoutSha.Sha256.Copy | agent/fanout.c:294 | the digest works on an independent copy |
| FanoutSha.Sha256.PadZeros | agent/fanout.c:296-302 | both padding cases leave the padded message up to its length field |
| FanoutSha.Sha256.PutLength | agent/fanout.c:303 | the eight length bytes are the big-endian bit count |
| FanoutSha.Sha256.Digest | agent/fanout.c:292-309 | the digest is SHA-256 of everything passed to the updates, however it was cut |
| HmacSha.Sha256.constructor | agent/hmac_sha256.c:56-64 | a new state has taken in the empty message |
| HmacSha.Sha256.TakeBuffer | agent/hmac_sha256.c:66-91 | the rolled rounds are the same compression function |
| HmacSha.Sha256.Feed | agent/hmac_sha256.c:96-106 | buffered bytes are appended, and a full buffer is compressed |
| HmacSha.Sha256.Update | agent/hmac_sha256.c:93-108 | after any sequence of updates the state stands for the concatenation |
| HmacSha.Sha256.Pad | agent/hmac_sha256.c:112-120 | both padding cases leave the padded message up to its length field |
| HmacSha.Sha256.PutBits | agent/hmac_sha256.c:44-47 | the two stored halves are the big-endian 64-bit count |
| HmacSha.HalvesAreBe | agent/hmac_sha256.c:37-47 | two big-endian halves make one big-endian field |
| HmacSha.Sha256.Final | agent/hmac_sha256.c:110-125 | the digest is the same FIPS 180-4 function that FanoutSha.Sha256.Digest returns, so the two implementations agree on every message |
| HmacSha.Sha256Of | agent/hmac_sha256.c:127-132 | the one-call form is SHA-256 of its input |
| HmacSha.PadKey | agent/hmac_sha256.c:148-153 | a pad is the zero-extended key exclusive-or the pad byte |
| HmacSha.HmacSha256 | agent/hmac_sha256.c:134-162 | HMAC as section 2 of RFC 2104 defines it, for keys of every length |
| Xxh64.StripesAppend | agent/fanout.c:173-186 | folding two runs of stripes is folding their concatenation |
| Xxh64.PartialStripe | agent/fanout.c:184-185 | a partial stripe changes no lane and is exactly the remainder |
| Xxh64.Get64 | agent/fanout.c:135-141 | eight bytes read little-endian |
| Xxh64.Get32 | agent/fanout.c:143-147 | four bytes read little-endian |
| Xxh64.XxhRound | agent/fanout.c:149-154 | the round, with the constants as the implementation writes them, is the round of the public description |
| Xxh64.Xxh64.constructor | agent/fanout.c:156-163 | the lanes of seed 0, nothing taken in |
| Xxh64.Xxh64.Block | agent/fanout.c:165-171 | one stripe moves all four lanes as the fold does |
| Xxh64.Xxh64.Update | agent/fanout.c:173-186 | after any sequence of updates the lanes are the fold over all complete stripes of the concatenation and the buffer is the rest |
| Xxh64.Finish | agent/fanout.c:203-205 | the 8, 4 and 1 byte steps consume exactly the remainder, in the order of the public description |
| Xxh64.Xxh64.Digest | agent/fanout.c:188-208 | the digest is XXH64 with seed 0 of everything passed to the updates wherever the wrapped counter tells whether there was a whole stripe, and otherwise that of a message begun as a short one |
| Xxh64Wrap.RestInjective | agent/fanout.c:203-205 | the tail steps lose nothing: the number they start from is determined by the one they end with |
| Xxh64Wrap.RotlBit | agent/fanout.c:133 | digit i of a 64-bit word rotated left by n is digit i - n modulo 64 of the word |
| Xxh64Wrap.AvalancheInjective | agent/fanout.c:206 | nor does the final mixing |
| Xxh64Wrap.RoundReaches | agent/fanout.c:149-154 | one input word can take a lane to any value |
| Xxh64Wrap.DigestRightIff | agent/fanout.c:192-202 | the digest is XXH64 if and only if the wrapped counter is truthful about a whole stripe or the lanes converge to the short-message constant |
| Xxh64Wrap.OneDigest | agent/fanout.c:192-202 | every message whose length is a multiple of 2^64 gets the digest of the empty message |
| Xxh64Wrap.WrongFor | agent/fanout.c:192-202 | every message 32 bytes short of a multiple of 2^64 has a continuation with a wrong digest |
| Layout.ReadsInsideIffEnd | agent/monitor.c:738-747 | every byte the scan reads is mapped exactly when the last one is |
| Layout.AcceptedIsSafeIff | agent/monitor.c:711-728 | an accepted layout is safe if and only if its rows end within 32 bits |
| Layout.RefusesOnlyUnsafe | agent/monitor.c:722-726 | below that bound the mapping check refuses nothing that would be safe |
| Layout.AcceptedIff | agent/monitor.c:711-727 | below that bound exactly the layouts with both sizes in 1..65535, rows inside the stride and every read mapped are accepted |
| Layout.WrapAccepted | agent/monitor.c:722-726 | a geometry the check accepts although its last row lies outside |
| Monitor.Shared.Step | native-gui/src/backend.c:286-297 | presenting a frame, cut into steps: the counter odd, rows half or wholly copied, the counter even |
| Monitor.Shared.Interfere | native-gui/src/backend.c:286-297 | any number of those steps; while the counter stands on an even value the frame does too |
| Monitor.Shared.PresentFrame | native-gui/src/backend.c:286-297 | those steps in order present a whole frame, two counter values on |
| Monitor.Span | agent/monitor.c:751-760 | reading against a running writer gives the frame if the counter did not move |
| Monitor.Reader.ScanTile | agent/monitor.c:753-761 | a tile that differs is copied and flagged; a pixel that changed is always under a flag, no other flag moves, and against a resting GUI every new flag stands for a changed pixel |
| Monitor.Reader.ScanRow | agent/monitor.c:746-762 | the same for a row, equal rows skipped |
| Monitor.Reader.Scan | agent/monitor.c:738-765 | a pass loses no flag, flags every changed pixel's tile, and if the counter stood still and even the copy is the frame and no tile is flagged in vain |
| Monitor.Reader.RectHas | agent/monitor.c:773-793 | a rectangle of a run holds exactly the pixels of its tiles, cut at the screen edge |
| Monitor.Reader.Mark | agent/monitor.c:793 | a marked rectangle reaches the clients from the copy |
| Monitor.Reader.ClearRun | agent/monitor.c:788-791 | one maximal run of flags is cleared |
| Monitor.Reader.FlushRow | agent/monitor.c:773-794 | a tile row goes out as its maximal runs, and nothing else does |
| Monitor.Reader.TilesToPixels | agent/monitor.c:767-796 | runs of all tile rows give pairwise disjoint in-screen rectangles that cover exactly the flagged pixels |
| Monitor.Reader.Flush | agent/monitor.c:767-796 | the emitted rectangles partition the flagged pixels, the returned number is that of the flagged tiles, all flags are cleared, and the view takes exactly those pixels |
| Monitor.Reader.ScanBetween | agent/monitor.c:1115-1129 | two equal loads around a scan mean the copy is the frame of that counter value, and a counter that stood still gives equal loads; otherwise everything changed stays pending |
| Monitor.Reader.Present | agent/monitor.c:1131-1136 | flushing a whole copy makes the clients' view that frame |
| Monitor.Reader.Tick | agent/monitor.c:1096-1136 | one turn of the loop: the view is always one presented frame or the blank start; against a resting GUI a turn is torn exactly at an odd counter, skipped exactly when that frame has been served with nothing pending, and otherwise whole, and then the clients have the frame; a skip, short of a full turn of the counter, shows the current frame |
| Monitor.Reader.constructor | agent/monitor.c:950-965 | copy and view start blank and equal, nothing flagged |
| Tar.OctalField | server/archive.py:65-66 | a field is twelve bytes and reads back exactly when the value has no sign and at most eleven octal digits |
| Tar.ChecksumFits | server/archive.py:78 | the byte sum of any block fits six octal digits and reads back |
| Tar.BlockParses | server/archive.py:68-79 | the assembled block parses to the name, mode, owner and numbers it was built from |
| Tar.Fields | server/archive.py:68-77 | the slice assignments on the growing bytearray put every field in its place |
| Tar.Header | server/archive.py:60-80 | refused exactly for names over 100 bytes; one readable 512-byte block, with mode 0644 and owner and group 0, exactly when size and time fit |
| Tar.TarSize | server/archive.py:83-95 | the announced length, or an error for a symbolic link |
| Tar.LayoutLength | server/archive.py:83-119 | the stream has the announced length exactly when every header is one block |
| Tar.ReadBack | server/archive.py:98-119 | a ustar reader gets back the members in order exactly when their numbers fit |
| Tar.TarStream | server/archive.py:98-119 | for an unchanging directory, the stream has the announced size and a ustar reader recovers the same ordered (name, mode, owner, content, time) list if and only if the numbers fit; it raises exactly for links, long names and files that changed |
| Import.StreamState | server/archive.py:227-257 | the streaming loop holds one file per member, no path inside another, and at most max_bytes |
| Import.StreamDigests | server/archive.py:240-256 | the digest kept for a file is the digest of the bytes on disk |
| Import.SameFiles | server/archive.py:203-206 | without backslashes the loop succeeds exactly when the whole extraction does and nothing is doubled or too large, with the same files |
| Import.RootCheck | server/archive.py:271-273 | the one-folder check says that every path lies below one root |
| Import.PartsConcat | server/archive.py:135 | a "/" parts a name: the components of a + "/" + b are those of a and then those of b |
| Import.OneComponent | server/archive.py:135 | a name without "/" is its one component, or none if it is empty or "." |
| Import.StreamIff | server/archive.py:224-257 | the streaming loop succeeds exactly if every member is a whole regular file at a relative name without "..", no two lie on or inside each other, and the bytes fit |
| Import.StreamBytes | server/archive.py:236-253 | then each member's bytes lie under its path, and nothing else is there |
| Import.ExtractIff | server/archive.py:200-203 | the extraction of the two-pass import succeeds exactly if every member is whole, has a path, and makes a folder of no other |
| Import.LastStays | server/archive.py:203 | and of the members that share a name the last one is kept |
| Import.AcceptedIff | server/archive.py:209-341 | an archive is accepted if and only if it is one image: members as the streaming loop takes them, all below one root, a readable manifest there whose id is not taken, nothing below the reserved name, and for every partition a member other than the manifest with the digest the manifest names; and the library gets exactly those members, apart from one on the reserved name |
| Import.OnePassRefinesTwoPass | server/archive.py:209-261 | same verdict, manifest and files as the two-pass import for every archive without doubles, backslashes, too many bytes, or a partition of the reserved name |
| Import.AcceptedFiles | server/archive.py:317-335 | an accepted one-pass image has every partition file with its digest, except one of the reserved name |
| Import.AcceptedFilesTwoPass | server/archive.py:317-335 | the same for the two-pass import |
| Import.ReservedNameSplits | server/archive.py:282-335 | with a partition of the reserved name the imports agree if and only if its digest is the manifest's own |
| Import.BackslashMoves | server/archive.py:202-204 | a member whose name holds a backslash lands elsewhere in the two-pass import |
| Import.AgreesIffNoBackslash | server/archive.py:203-206 | an archive accepted in one pass, with nothing on the reserved name, gets the same result in two if and only if no name holds a backslash |
| Import.AgreesIff | server/archive.py:185-261 | an archive that either import accepts, with nothing on the reserved name, gets the same result from both if and only if it has no backslash, no doubles, at most max_bytes and no partition of that name |
| Import.BackslashExample | server/archive.py:203-206 | an archive the one-pass import accepts and the two-pass import does not treat alike |
| Import.ReservedExample | server/archive.py:282-335 | an accepted image whose verified partition file is gone |
| Import.WriteMembers | server/archive.py:224-257 | the loop over members and chunks computes the specification and never writes more than max_bytes, whatever it ends in |
| Import.ImportTarStream | server/archive.py:209-261 | the whole one-pass import: it accepts exactly the archives of one image with a free id and matching partitions, and keeps their files |
| Admission.StepKeeps | server/archive.py:292-341 | every check, rename, comparison, publication, exception, clean-up step or stop of any import keeps ownership of the folders |
| Admission.RunKeeps | server/archive.py:264-341 | hence every state of every interleaving, a crash included |
| Admission.NoOverwrite | server/archive.py:292-316 | two imports of one id never both succeed, a success keeps exactly its own files, and no non-empty folder of the library is changed |
| Admission.ClearingEnds | server/archive.py:337-341 | the clean-up of a refused import, left alone, ends with its folder gone and every other folder as it was |
| Admission.RefusedLeavesNothing | server/archive.py:292-341 | an import with a free id and a partition that does not match has, left alone, a run that ends refused with the library as it was |
| Admission.AbortLeavesNothing | server/archive.py:315-341 | so has one in which anything is raised between the two renames |
| Visibility.CheckedCanEnter | server/archive.py:290-297 | an import passes its check only if its id was free from the start, or another that can get in doubled it |
| Visibility.StepTraced | server/archive.py:264-341 | every step of every import keeps the old library as it was and traces each new folder, and each valid manifest in it, to an import that can get in |
| Visibility.RunTraced | server/archive.py:264-341 | hence every state of every interleaving |
| Visibility.VisibleIsVerified | server/archive.py:277-335 | when no import that can get in is harmful: whatever image the library serves, at any moment and from whatever depth, was there before, untouched, or has every partition beside its manifest matching its digest |
| Visibility.ChainEnters | server/images.py:477-481 | every import at the end of a chain of doubled ids has a run that gets it in |
| Visibility.NestedShowsBad | server/archive.py:277-341 | any import that can get in with a second manifest of an unclaimed id has a run in which the library serves an image that does not match |
| Visibility.ReservedShowsBad | server/archive.py:282-335 | so has any import that gets a partition of the reserved name past the comparison under an unclaimed id |
| Visibility.VisibleIsVerifiedIff | server/archive.py:264-341 | all runs serve only verified images if and only if no import that can get in is of those two kinds |
| Visibility.NestedSurvives | server/archive.py:335-341 | a mismatching second manifest that alone claims its id is still served after its import succeeded |
| Visibility.StaysServed | server/images.py:466-483 | without a second manifest of its id among the imports that can get in, an image stays served throughout every run |
| Visibility.DoubleUnserves | server/images.py:477-481 | with one, a run takes the image off the list |
| Visibility.StaysServedIff | server/images.py:466-483 | hence exactly then |
| NestedManifests.StreamIsWellStaged | server/archive.py:224-261 | what the one-pass extraction hands over, of any manifest, is what the interleaving model starts from |
| NestedManifests.ExtractIsWellStaged | server/archive.py:200-204 | the same for the two-pass extraction |
| NestedManifests.StreamHolds | server/archive.py:236-253 | each member's bytes lie under its path |
| NestedManifests.DoublesIffMember | server/images.py:450-483 | an import carries a second manifest of an id exactly when a member of its archive is a valid one, by name and content |
| NestedManifests.NestedArchiveShowsBad | server/archive.py:209-341 | every accepted archive with a mismatching second manifest that alone claims its id has a run that ends in success with that image served |
| NestedManifests.NestedExample | server/archive.py:209-341 | an archive of two valid manifests and two partitions that is accepted although the second image does not match |
| Capture.StepKeeps | server/capture.py:607-668 | with one agent request at a time, every step keeps the invariant; an image enters only by the rename, with every stream file matching |
| Capture.RunKeeps | server/capture.py:301-434 | hence every run of uploads, manifests, cancels, verifications and restarts |
| Capture.ClosedForGood | server/capture.py:333-342 | a task that left pending and running never returns to them, with any number of overlapping requests |
| Capture.LibraryStays | server/capture.py:645-655 | an image in the library is never changed by the capture that made it |
| Capture.Lifecycle | server/capture.py:592-693 | over whole runs: closed stays closed, done means in the library, in the library means matching and unchanging |
| Capture.FailedButInIff | server/capture.py:592-693 | over every run, the task is failed with its image in the library if and only if the verifier failed after its rename |
| Capture.FailedThoughEntered | server/capture.py:592-604 | such a run for any file and contents |
| Capture.OverlapAdmitsUnverified | server/capture.py:175-220 | a run, past the digest recorded on arrival and the reread, that admits a mismatching image: both uploads open the file, the first is recorded and reread, then the second writes |
| CaptureRuns.RunSound | server/capture.py:175-220 | with one request at a time, in every state of every run a record beside a file is the digest of its bytes, and a manifest is approved or staged only after everything it names arrived with the digest it names |
| CaptureRuns.VerifyingIsGood | server/capture.py:375-434 | hence whatever waits for verification already matches its manifest: the reread can only find what happened to the disk |
| CaptureRuns.CancelClears | server/capture.py:802-815 | a cancellation closes an open task, and only an open one, at once and for good, and after its removal the staging folder is gone and stays gone, whatever number of uploads and finishes is under way |
| CaptureRuns.CancelledStaysOut | server/capture.py:802-815 | with one request at a time a cancelled task's image never enters the library |
| CaptureRuns.RestartTakesUp | server/reconcile.py:73-140 | after a restart nothing is under way, and the tasks that were go by what is on the disk: done, verifying again from the start, or failed |
| CaptureRuns.FinishDecides | server/capture.py:375-381 | after any uploads the manifest is taken exactly if every file it names has arrived with the digest it names, and the task fails otherwise |
| CaptureRuns.LastIsHeld | server/capture.py:175-220 | what arrived last under a name is what is staged under it, with its digest |
| CaptureRuns.Completes | server/capture.py:290-668 | for every non-empty series of uploads and every manifest that describes what arrived, a run ends done with exactly those files and that manifest in the library |
| CaptureRuns.RefusedUploadClears | server/capture.py:377-381 | for every other manifest a run ends failed with nothing staged |
| CaptureRuns.RemovalEnds | server/capture.py:380 | the removal, one entry at a time, comes to its end |
| CaptureRuns.LostUploadIsRemoved | server/capture.py:315-335 | an upload that ends after its task was closed, or that the disk had no room for, leaves neither file nor record |
| CaptureRuns.FailedVerificationClears | server/capture.py:679-693 | a verification that fails before the rename ends failed, with nothing staged and nothing in the library |
| CaptureRuns.TakenTargetFails | server/capture.py:400-406 | an upload for an image that is in the library already fails its task |
| CaptureRuns.DecidedStays | server/capture.py:654-691 | a verification whose task was decided otherwise neither changes its state nor removes its folder |
| CaptureRuns.RemovalStaysPut | server/capture.py:380 | a removal works on the folder it opened, wherever that has been renamed to, and on no other |
| CaptureOverlap.QuietRun | server/capture.py:287-434 | with no dangerous request left, every continuation, with any number of requests, keeps staging and library matching whatever manifest they show |
| CaptureOverlap.DangerousSpoils | server/capture.py:301-434 | every dangerous request has a continuation in which an image that does not match is in the library |
| CaptureOverlap.OverlapHarmsIff | server/capture.py:287-434 | with any number of requests anywhere when the uploads are closed: a mismatching image can enter the library if and only if one of them is dangerous |
| CaptureOverlap.SecondManifestAdmitted | server/capture.py:301-420 | a second manifest that agrees with the records but not with the bytes replaces the one the verifier has read, is admitted, and the task is done |
| CaptureOverlap.MixedUpload | server/capture.py:175-220 | two overlapping uploads of one file leave a record that is not of the bytes |
| CaptureOverlap.TwoManifestsAdmitUnverified | server/capture.py:287-434 | from the beginning of a task, a whole run to a mismatching image and a task that is done |
| Locks.StepKeeps | server/db.py:1239-1323 | every statement, commit, rollback, timeout, entry, acquisition and release keeps the lock invariant |
| Locks.WaitingClimbs | server/db.py:32-36 | a wait leads from the queue to the holder of `_write_lock`, or from SQLite's lock to a running thread, never back |
| Locks.NoCycle | server/db.py:32-36 | no ring of threads of any length wait for each other |
| Locks.LockOrder | server/db.py:1259-1323 | in every reachable state of any number of threads: no wait cycle, nobody queues with SQLite's lock in hand, and an ended `writing` block has left no transaction and no lock |
| Locks.SettlingObeys | server/db.py:1298-1323 | operations that all settle keep the rule |
| Locks.SomebodyRuns | server/db.py:26-36 | whoever waits is at most two hops from a thread that can run or a lock that is free |
| Locks.EntryDeadlocksIff | server/db.py:1298-1323 | entering the queue can lead to a wait cycle if and only if SQLite's lock is carried in unsettled |
| Locks.EntryInsideBlocksItself | server/db.py:1316-1319 | an entry from inside a `writing` block waits for itself |
| Locks.BlockIsAtomic | server/db.py:1258-1295 | whatever other threads do, a block of writes is committed as a whole if `writing` came to its commit and not at all if anything was raised before it, and nothing of it before it ends, as long as no conditional update misses after the block has written |
| Locks.KeptOnlyBy | server/db.py:1290-1323 | a step commits for a thread in three cases only: the end of a block that did not raise, a settling entry, and a commit outside; then it commits all that is pending |
| Locks.RaisingEndsBlock | server/db.py:1290-1295 | a raise, a timeout or a refused lock upgrade inside a block ends it with nothing of it kept and both its transaction and SQLite's lock given up |
| Locks.TimedOutStaysOpen | server/db.py:1269-1276 | a write that timed out outside a block leaves its transaction open, in which the next write fails at once for as long as another thread has SQLite's lock |
| Locks.MissSplitsBlock | server/db.py:1252-1255 | a missed conditional update in mid-block does split it: the writes before it are lost and those after it committed |
| Locks.NothingLost | server/db.py:1298-1323 | a thread whose transactions are never rolled back has every executed statement committed or pending, once and in order; settling keeps what the caller wrote |
| Locks.BlockCompletes | server/db.py:1290-1323 | with both locks free a `writing` block of any number of statements can run to its end, and then all of them are committed in order, both locks are free and no other thread has been touched |
| NetSeen.Devices.NetSeen | server/db.py:1389-1463 | the table after a contact is the throttled write's, other rows stay, and it says whether it wrote |
| NetSeen.StepAgrees | server/db.py:1338-1386 | one contact keeps the throttled table in agreement with the always-written one |
| NetSeen.ThrottleAgrees | server/db.py:1335-1463 | for every sequence of contacts and every behaviour of the clock, all fields agree except `last_seen`, which is behind by 0 to less than 15 seconds (empty and NULL `monitor_auth` are one) |
| NetSeen.AlwaysSays | server/db.py:1440-1463 | with a write for every contact the row of a machine says what its contacts said: each coalesced field the last value given, prompt and local clone those of the last contact, the authentication that of the last secret, the drives of the last contact that updates them, and the first contact's time |
| NetSeen.ThrottledSays | server/db.py:1389-1463 | and so does the throttled table, up to the agreement above |
| NetSeen.WritesAreRare | server/db.py:1327-1335 | a machine that repeats itself costs at most one write for every 15 seconds |
| GrubMenu.MenuMeaning | boot/grub_menu.py:205-411 | exactly which answers boot the agent unattended and which wait for a person, that exactly cloners get a file with no way to their drives, that everyone else keeps a local entry, and that an unserviceable answer gets the local-only file |
| GrubMenu.EntryMeaning | boot/grub_menu.py:226-325 | a machine in service gets exactly one agent entry: a recovery entry exactly for the roles without a normal one and no work, a screen exactly for build, classroom and cloner, and a way on to the disk for all but the cloner |
| BootGuard.StepKeepsBudget | server/bootguard.py:61-85 | a request of any machine, at any point, keeps the machine's budget |
| BootGuard.BudgetKept | server/bootguard.py:109-153 | over an unbroken stretch the row counts the boots |
| BootGuard.BootLoopBound | server/bootguard.py:61-85 | however requests overlap, in a stretch of one piece of work only the first three counted boots can get the agent; later ones get the local disk |
| BootGuard.SerialBoot | server/bootguard.py:66-85 | an undisturbed boot gets the agent if and only if fewer than three were counted, and a changed context starts afresh |
| BootGuard.FailedCountIsLocal | server/bootguard.py:71-76 | a count that raises or cannot be read back gives the local disk |
| BootGuard.ExhaustedIsLocal | boot/grub_menu.py:233-325 | with its boots used up a machine with a disk is sent to it |
| BootGuard.ContextNamesWork | server/bootguard.py:46-54 | two requests share a budget exactly when they name the same task, or the same session and no task |
| BootGuard.ClonersAreCounted | server/bootguard.py:61-69 | a cloner is counted exactly when it has work to name |
| BootGuard.CountedExactly | server/bootguard.py:57-69 | a request is counted exactly if it is a boot, its menu starts the agent and it names its work; any other gets its menu at once, and no row but the machine's own is touched |
| BootGuard.ForgetStartsAnew | server/housekeeping.py:118-119 | after housekeeping dropped its row a machine has its full budget again, and nobody else's changes |
| BootGuard.ClonerKeepsOffDisks | boot/http.py:86-96 | over every run, a cloner's menu leaves its drives alone if and only if answering it did not raise |
| AutoReboot.ParseTimeIff | server/auto_reboot.py:30-39 | exactly the texts accepted: the two-digit form of an hour from -9 to 23 and a minute from -9 to 59 |
| AutoReboot.MinusIsAccepted | server/auto_reboot.py:30-39 | "-1:05" and "05:-1" are accepted |
| AutoReboot.SettingsUsableIff | server/auto_reboot.py:52-58 | stored settings give a time that datetime.replace takes if and only if they are off or the accepted time has no minus sign |
| AutoReboot.NextIsLeast | server/auto_reboot.py:61-73 | for every usable plan the next occurrence is the least matching minute strictly after now, daily and weekly |
| AutoReboot.UnusableNeverReboots | server/auto_reboot.py:143-151 | with an unusable time every tick raises and none reboots |
| AutoReboot.SettingsRebootIff | server/auto_reboot.py:52-177 | under stored settings that are on some run reboots if and only if the accepted time has no minus sign |
| AutoReboot.Scheduler.Tick | server/auto_reboot.py:143-177 | one tick with any state of the server and a failure at any point does what the step function says |
| AutoReboot.TickMovesDue | server/auto_reboot.py:143-177 | due is kept, or moved past the current minute when the occurrence ends |
| AutoReboot.ActsOnlyWhenDue | server/auto_reboot.py:148-177 | a reboot or skip is for an occurrence the plan names and that has come, and a reboot only if the server is free |
| AutoReboot.TickDecides | server/auto_reboot.py:143-177 | in a run without faults, what every tick does: nothing before its occurrence or within ten minutes of the last deferral of it, otherwise a reboot if the server is free, a skip two hours after the first deferral, and else a deferral |
| AutoReboot.RaisedIff | server/auto_reboot.py:143-177 | exactly which ticks raise, and which of them after the reboot command |
| AutoReboot.RaisedTickRetries | server/auto_reboot.py:151-177 | a tick that raised gives nothing up: at once tried again without the fault it reboots a free server for the same occurrence |
| AutoReboot.OffForgets | server/auto_reboot.py:145-151 | switching off drops the occurrence and its deferral, and the next plan starts afresh |
| AutoReboot.DueRises | server/auto_reboot.py:160-177 | after an occurrence ended every later tick works on a later one, so each ends at most once, whatever the clock does |
| AutoReboot.SkipFollowsDeferral | server/auto_reboot.py:157-164 | a skip comes at least two hours after a busy tick at or after the same occurrence, and no tick in between ended that occurrence |
| AutoReboot.RetryWaits | server/auto_reboot.py:151-167 | after a deferral the occurrence is neither deferred again, skipped nor rebooted for until ten minutes have passed on the wall clock |
| AutoReboot.RebootsOncePerDue | server/auto_reboot.py:168-177 | reboots of ticks without a late failure are for strictly later and later occurrences |
| AutoReboot.LateFaultRebootsAgain | server/auto_reboot.py:171-176 | a tick that fails after its reboot command reboots for the same occurrence again |

## Left out

- Fanout.MakeRoom: termination rests on finitely many signals interrupting writes and finitely many polls that return before the clock moves; a system that does neither can hold the reader for ever.
- Fanout.Digests.WriteFiles: the kernel's AF_ALG engine and the hexadecimal line are not modelled, only the built-in SHA-256 and the digest bytes; whether a digest file can be written is a parameter, and what a failing `write` leaves half written is not said.
- Fanout.FanOut: exit 2 for memory that could not be allocated and for a kernel hash engine that could not be opened or fails are not modelled.
- Fips180.Words64: the two implementations write the schedule loop separately; they are the same, and the model has one copy.
- Monitor.Reader.Tick: assumes the counter moves by less than 2^32 during one scan; a marked rectangle counts as delivered, so deferred sends, clients joining and pacing are not in it.
- Monitor.Shared.Step: a GUI that restarts, makes an odd counter even and blanks the frame (native-gui/src/backend.c:203-213) is not modelled, nor is a plain `/dev/fb0` without a counter.
- Import.OnePassRefinesTwoPass: compressed archives, which only the two-pass import opens, tar framing errors and disk errors are not modelled; manifest validation is a function of the manifest's bytes that yields safe single-component partition names.
- Visibility.VisibleIsVerifiedIff: assumes what validation and the hash provide, that a manifest has a partition and no text holds its own SHA-256; storage locations other than the local one are not in it.
- Admission.NoOverwrite: folders are compared by content; a directory nested inside an image is part of its file paths.
- Capture.Lifecycle: agent requests are one at a time by assumption, since nothing in the server enforces it (CaptureOverlap.OverlapHarmsIff); the identity gate, preflight and progress fields are left out.
- CaptureOverlap.OverlapHarmsIff: a refused request removes the folder entry by entry; the removals of a cancelled task and of a failed verification, after which nothing enters the library, are one step each.
- AutoReboot.ParseTimeIff: underscores and other scripts' digits in `int()` are not modelled, since the comparison with the two-digit form refuses them.
- Locks.LockOrder: readers are not in it, and the busy timeout is a step that may come at any moment; statements are texts, whose effect on rows is not modelled.
- NetSeen.ThrottleAgrees: one contact is one atomic step; a contact that skips on a row another thread is just replacing counts as having come first.
- BootGuard.BootLoopBound: says nothing about requests without a context, which the guard does not count by design, or about a row that housekeeping deletes within the stretch.
- AutoReboot.DueRises: the settings are fixed during the run; a changed time takes effect after the pending occurrence, and switching off drops it. Time zones and clock changes appear only as the local wall clock's readings.
- Counter and progress files, the hash-only mode, pipe widening, argument parsing and the opening of FIFOs in `agent/fanout.c`: they do not touch the stream.
- LibVNCServer, uinput, authentication and power commands in `agent/monitor.c`: library and device calls.
- GRUB script text and the platform test inside it, journal wording, and the HTTP and console routers.
- `agent/lldpsniff.c`, `agent/hivewrite.c`, `boot/trace.py` and the small counters and classifiers of `server/`: they would only add easier members.
