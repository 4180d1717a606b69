# ServEcosys: a verified model of the boot crypto, the permission arbiter and three small cores

This Dafny project models the algorithmic cores of the ServEcosys root project and
proves what they compute, for all inputs and over all runs.

- **RSA-2048 verification** (`Arith`, `Limbs`, `Octets`, `BigNum`, `Rsa`). The big-integer
  routines work in place on arrays of 32-bit limbs; every contract is integer arithmetic on
  the number the limbs stand for. They compose into one statement: the accept bit is the
  equation of RFC 8017. No routine needs a non-zero modulus. Reducing by zero only drops
  what leaves the window, so `EffectiveModulus` is then 2^(32 n), and the end-to-end
  contract covers that case too. The code leaves out the standard's check that the
  signature is below the modulus. A caller who makes that check gets the standard's
  decision; from the modulus on, every signature the code accepts is one the standard
  rejects (`Rsa.Verify`), and such signatures exist for every digest
  (`Rsa.RangeCheckMatters`, `Rsa.DeviatingKey`). The DigestInfo prefix is the DER encoding
  that names SHA-256 (`Rsa.DigestInfoIsDer`).
- **SHA-256 and HMAC** (`Sha256Spec`, `Sha256Stream`, `Hmac`, with `Primes`,
  `Sha256Meaning` and `Sha256Example`). The boot loader and the backend carry the same
  hash code under different names, modelled once. That the definitions the code refines
  are those of FIPS 180-4 is stated separately: the round functions bit by bit, the
  constants as roots of primes, the words as numbers, and the hash of "abc" derived from
  the definitions, all 48 computed schedule words and all 64 rounds. The ghost field
  `fed` is the message absorbed so far. The backend MAC is RFC 2104 for every key. The boot
  MAC cuts keys above 64 bytes instead of hashing them, so it is RFC 2104 of the cut key.
- **The permission arbiter** (`Selinux`, `ArbiterModel`, `Arbiter`, `ArbiterRuns`,
  `ArbiterLives`). The table of 1024 entries with in-place compaction refines a finite map
  from pid to credentials; the properties of runs are proved about the map and hold of the
  table code through `MainLoop`. What the kernel answers (which pids are alive, which context
  a pid has) is an environment that may change arbitrarily from one request to the next, which
  covers births, deaths and pid reuse. The comment at `reap_dead_processes` promises that
  a reused pid never inherits an entry. `ArbiterLives` says exactly when that holds, for
  every run: when no pid that has an entry changes hands between two successive requests.
  A request between each death and the reuse is not enough by itself, because the manager
  can make an entry for a pid that is already dead. The source passes on -1 for a sender it
  cannot identify, which is also the value of an unset manager, so `GrantNeedsRegistration`
  has that one exception.
- **CRC-32** (`Crc32`), the **Oops-storm table** (`Guard`) and the **rectangle fill**
  (`Display`). As long as at most 32 pids are noted the table is exact: `Guard.EveryEighth`
  says when a storm fires, for every run. One pid more and it may never fire
  (`Guard.RobinNeverStorms`).

The loop bodies of `bn_reduce`, `sha256_update`, `sha256_transform`, `display_fill_rect`
and the final byte-writing loops of `sha256_final` are methods of their own, so that each
proof stays small. C arrays passed with a count are arrays of that length. Long
tables of constants (the round constants, the rules of a domain) are written in rows. The unsigned
level enumeration is explicit in `ToLevel`: a negative level in a request becomes a number
above every level. `hide` statements keep bit-vector operations out of proofs that do not
need them.

## Model

| member | source | states |
|---|---|---|
| BigNum.Compare | root project/boot/crypto.c:126-134 | the three results are the order of the two numbers |
| BigNum.Subtract | root project/boot/crypto.c:136-145 | the true difference, plus 2^(32 n) exactly when it is negative |
| BigNum.BorrowOut | root project/boot/crypto.c:141-143 | the wrapped 64-bit difference splits into a word and a borrow that add up to the true difference |
| BigNum.ShiftInBit | root project/boot/crypto.c:147-157 | doubles and adds the bit, losing one window exactly on overflow |
| BigNum.AccumulatorFits | root project/boot/crypto.c:167-169 | no inner step of the multiplication exceeds 64 bits |
| BigNum.RowDone | root project/boot/crypto.c:164-172 | a row's last carry lands in a zero limb and completes (low i+1 limbs of a) * b |
| BigNum.Multiply | root project/boot/crypto.c:160-173 | the exact product in 2n limbs, for every n |
| Limbs.TopBitDecides | root project/boot/crypto.c:183-184 | the saved top bit is set exactly when doubling overflows the window |
| Limbs.HighIsValue | root project/boot/crypto.c:181-182 | reading limb i>>5, bit i&31 from the top down spells the number |
| BigNum.ReduceBit | root project/boot/crypto.c:181-187 | one step keeps the remainder below the modulus, also when the doubled remainder leaves the window |
| BigNum.Reduce | root project/boot/crypto.c:176-188 | in mod m for every input width, limb count and modulus; m = 0 truncates |
| BigNum.MulMod | root project/boot/crypto.c:191-199 | a * b mod m, with the output allowed to alias an input |
| BigNum.SquareMultiplyStep | root project/boot/crypto.c:214-222 | one iteration keeps result * b^exp modulo m, including the skipped last squaring |
| BigNum.ModExp | root project/boot/crypto.c:202-225 | base^exp mod m for every exp > 0, base and m; 1 for exp = 0 |
| Octets.PackStep | root project/boot/crypto.c:233-237 | or-ing the next byte into its limb never meets a set bit |
| Octets.FromBytes | root project/boot/crypto.c:229-238 | the packed limbs; for whole limbs their value is OS2IP of the bytes |
| Octets.PackValueIffWholeLimbs | root project/boot/crypto.c:229-238 | the value is OS2IP for all strings of a length exactly when the length is a multiple of 4 |
| Octets.ToBytes | root project/boot/crypto.c:241-249 | every byte cut from its limb |
| Octets.UnpackPack | root project/boot/crypto.c:229-249 | converting back gives the same bytes, for every length that fits |
| Octets.UnpackIsI2OSP | root project/boot/crypto.c:241-249 | on all limbs the result is I2OSP of the value |
| Rsa.MatchesEncoding | root project/boot/crypto.c:272-300 | the padding scan accepts exactly the one EMSA-PKCS1-v1_5 encoding of the digest |
| Rsa.DigestInfoIsDer | root project/boot/crypto.c:3-8 | prefix and digest are the DER encoding of the DigestInfo with the object identifier of SHA-256, 2.16.840.1.101.3.4.2.1, built from tag-length-value elements and base-128 arcs |
| Rsa.Recover | root project/boot/crypto.c:265-270 | the 256-octet form of signature^e mod n |
| Rsa.Verify | root project/boot/crypto.c:251-301 | end to end: TRUE exactly when the size and exponent checks and the equation of RFC 8017 hold; the decision of section 8.2.2 for signatures below the modulus, and never its decision when a signature from the modulus on is accepted |
| Rsa.AcceptedIffReducedValid | root project/boot/crypto.c:251-301 | a signature is accepted exactly when its reduction modulo n is valid under section 8.2.2 of RFC 8017 |
| Rsa.AgreesIffNoRoomAbove | root project/boot/crypto.c:251-301 | code and standard agree on all signatures exactly when no valid signature plus n fits the octets |
| Rsa.RangeCheckMatters | root project/boot/crypto.c:265-270 | for every encodable hash and odd exponent, the modulus one above the encoding makes them disagree |
| Rsa.DeviatingKey | root project/boot/crypto.c:251-301 | for every digest, a key and a signature that the code accepts and the standard rejects |
| Sha256Spec.PadIsLeast | root project/boot/crypto.c:89-107 | the number of zero bits is the least that section 5.1.1 of FIPS 180-4 asks for |
| Sha256Meaning.ChSelects | root project/boot/crypto.c:30 | Ch takes y where x is set and z elsewhere |
| Sha256Meaning.MajAgrees | root project/boot/crypto.c:31 | Maj agrees with any two arguments wherever they agree (with Sha256Meaning.MajSymmetric) |
| Sha256Meaning.RotrMoves | root project/boot/crypto.c:29 | a rotation by n moves bit i + n modulo 32 to bit i, for every n |
| Sha256Meaning.RoundConstants | root project/boot/crypto.c:10-27 | the 64 words are the 32-bit fractions of the cube roots of the first 64 primes |
| Sha256Meaning.InitialHash | root project/boot/crypto.c:64-75 | the initial words are those of the square roots of the first 8 |
| Primes.TableIsPrimes | root project/boot/crypto.c:10-27 | the table of primes behind these statements holds exactly the primes up to 311 |
| Sha256Meaning.JoinUndoesSplit | root project/boot/crypto.c:41-46 | cutting a word into bytes and joining them is the identity, and so is the converse (Sha256Meaning.SplitUndoesJoin) |
| Sha256Meaning.SplitIsBigEndian | root project/boot/crypto.c:109-114 | a word's bytes are the big-endian form of the number its bits spell |
| Sha256Example.HashOfAbc | root project/boot/crypto.c:37-115 | the hash of "abc" is ba7816bf..f20015ad, derived step by step |
| Sha256Stream.Context.Schedule | root project/boot/crypto.c:41-48 | the loop fills in the recursively defined message schedule |
| Sha256Stream.Context.Transform | root project/boot/crypto.c:37-62 | rotating the working registers computes the compression of section 6.2.2 |
| Sha256Stream.Context.Init | root project/boot/crypto.c:64-75 | nothing absorbed yet |
| Sha256Stream.Context.Update | root project/boot/crypto.c:77-87 | the absorbed message grows by the data; buffer, offset, counter and state keep representing it |
| Sha256Stream.LastBlocks | root project/boot/crypto.c:92-107 | the one-block or two-block ending is the padded message, for every residue modulo 64 |
| Sha256Stream.CounterByte | root project/boot/crypto.c:104-105 | each byte cut from the wrapping counter is the byte of the true bit length |
| Sha256Stream.Context.Final | root project/boot/crypto.c:89-115 | the digest is the hash of everything absorbed; no other output byte changes |
| Hmac.HashPieces | root project/boot/crypto.c:64-115 | however a message is cut into updates the digest is that of the whole |
| Hmac.HashOnce | root project/backend/deps/crypto/crypto.c:99-104 | the one-shot hash |
| Hmac.MacFromBlock | root project/backend/deps/crypto/crypto.c:122-135 | inner and outer hash, although the MAC buffer is both input and output of the outer one |
| Hmac.PadsDetermineMac | root project/boot/crypto.c:313-325 | the block differing from the key block by 0x36 starts the inner hash, the one differing by 0x5c the outer hash |
| Hmac.EquivalentKeys | root project/backend/deps/crypto/crypto.c:106-121 | filling a short key up with zeros, or hashing a long one, gives the same MAC |
| Hmac.BackendMac | root project/backend/deps/crypto/crypto.c:106-138 | section 2 of RFC 2104 for every key and data length |
| Hmac.BootMac | root project/boot/crypto.c:303-328 | the MAC of the cut key block; RFC 2104 for keys of at most 64 bytes |
| Hmac.BootMacOfLongKey | root project/boot/crypto.c:309-310 | for a longer key, RFC 2104 of its first 64 bytes |
| Selinux.DomainMeaning | root project/backend/deps/selinux/selinux_wrap.c:112-128 | the parser yields d exactly when d is the type after the first ":r:", colon-terminated and short enough |
| Selinux.ContextParses | root project/backend/deps/selinux/selinux_wrap.c:112-128 | a context u:r:d:level yields d exactly when d is short enough, for every d and level |
| Selinux.ExtractDomain | root project/backend/deps/selinux/selinux_wrap.c:112-128 | the scan writes the terminated domain, or nothing at all |
| Selinux.Monitor.Check | root project/backend/deps/selinux/selinux_wrap.c:183-210 | allowed, denied or error; the enforcing flag plays no part |
| Selinux.DecisionMeaning | root project/backend/deps/selinux/selinux_wrap.c:26-210 | for every context, class and permission: -1 exactly if there is no domain, 0 exactly if the policy, stated class by class, lets it, 1 otherwise |
| Selinux.SignalDomains | root project/backend/deps/selinux/selinux_wrap.c:26-105 | exactly sys_dom_t and uid_dom_t may signal a process |
| Arbiter.Arbiter.constructor | root project/backend/sub_kernel/permission_arbiter.c:421-427 | the booted table holds the arbiter's own entry |
| Arbiter.Arbiter.FindProcess | root project/backend/sub_kernel/permission_arbiter.c:155-161 | finds a pid exactly when the map has it |
| Arbiter.Arbiter.RegisterProcess | root project/backend/sub_kernel/permission_arbiter.c:115-140 | refines the map update; a full table refuses without change |
| Arbiter.Arbiter.Compact | root project/backend/sub_kernel/permission_arbiter.c:167-179 | in-place compaction ends with exactly the live entries in order |
| Arbiter.SurvivorsAsMap | root project/backend/sub_kernel/permission_arbiter.c:167-179 | pids stay unique and the compacted table is the map restricted to live positive pids |
| Arbiter.Arbiter.ReapDeadProcesses | root project/backend/sub_kernel/permission_arbiter.c:167-179 | lookups of survivors are untouched, dead pids are gone |
| Arbiter.Arbiter.SetProcessLevel | root project/backend/sub_kernel/permission_arbiter.c:206-252 | refines the guarded change of level |
| Arbiter.Arbiter.BecomeManager | root project/backend/sub_kernel/permission_arbiter.c:258-270 | takes the role exactly when it is unset or its holder is dead |
| Arbiter.Arbiter.AuthorizeProcess | root project/backend/sub_kernel/permission_arbiter.c:276-297 | refines the manager's grant |
| Arbiter.Arbiter.HandleRequest | root project/backend/sub_kernel/permission_arbiter.c:307-387 | new state and reply are those of the map model |
| Arbiter.Arbiter.ServeOne | root project/backend/sub_kernel/permission_arbiter.c:466-471 | reaping comes before every request |
| ArbiterRuns.MainLoop | root project/backend/sub_kernel/permission_arbiter.c:419-486 | the replies of a whole run of the table code are those of the model |
| ArbiterRuns.StepLevel | root project/backend/sub_kernel/permission_arbiter.c:206-252 | an entry rises only within its cap, signed if in 4 to 7, and with a signalling domain |
| ArbiterRuns.StepLevelExact | root project/backend/sub_kernel/permission_arbiter.c:206-297 | an entry's level changes only when its own process sets it, and then to the target; a grant leaves it alone or creates the entry at 2 |
| ArbiterRuns.CheckAnswer | root project/backend/sub_kernel/permission_arbiter.c:314-333 | in every run a check is granted exactly to the process itself or the manager, for levels from 0 to the pid's |
| ArbiterRuns.QueryAnswer | root project/backend/sub_kernel/permission_arbiter.c:335-347 | a level is reported exactly to the process itself or the manager; anyone else gets -1 and 0 |
| ArbiterRuns.SetAnswer | root project/backend/sub_kernel/permission_arbiter.c:206-252 | in every run, exactly when a set-level is granted, a process without an entry included, and what it replies |
| ArbiterRuns.AuthorizeAnswer | root project/backend/sub_kernel/permission_arbiter.c:276-297 | exactly when a grant is made, and what it replies |
| ArbiterRuns.OtherAnswers | root project/backend/sub_kernel/permission_arbiter.c:364-387 | the reply to a registration, and the refusal of every other kind |
| ArbiterRuns.CheckAgreesWithGet | root project/backend/sub_kernel/permission_arbiter.c:314-347 | check says yes exactly when the reported level suffices; negative levels never do |
| ArbiterRuns.GrantEnablesClimb | root project/backend/sub_kernel/permission_arbiter.c:206-297 | after a grant every level up to the cap outside 4 to 7 can be taken, given a signalling domain |
| ArbiterRuns.ManagerChanges | root project/backend/sub_kernel/permission_arbiter.c:258-270 | the manager changes only by registration, from unset or from a dead pid, and then always to the sender |
| ArbiterRuns.GrantNeedsRegistration | root project/backend/sub_kernel/permission_arbiter.c:258-297 | in every run a grant was made by a sender that had registered successfully before, or by an unidentified one (peer -1) |
| ArbiterRuns.UnidentifiedGrants | root project/backend/sub_kernel/permission_arbiter.c:141-153 | as long as no manager is set, an unidentified sender's grant succeeds exactly when the level is on the ladder and the pid has or can get an entry |
| ArbiterRuns.UnidentifiedGrantAtBoot | root project/backend/sub_kernel/permission_arbiter.c:276-297 | right after boot an unidentified sender sets the cap of the arbiter's own entry |
| ArbiterRuns.CapIsLastGrant | root project/backend/sub_kernel/permission_arbiter.c:272-297 | in every run each cap is the last grant since the entry was created, or 0 |
| ArbiterRuns.LevelIsLastSet | root project/backend/sub_kernel/permission_arbiter.c:200-252 | in every run each level is the target of the last successful set-level since the entry was created, or 2, or 8 for the arbiter's own at boot |
| ArbiterRuns.TableIsHistory | root project/backend/sub_kernel/permission_arbiter.c:115-297 | in every run which pids have an entry, and all six fields of it, are a function of the replies given so far |
| ArbiterRuns.LadderSafety | root project/backend/sub_kernel/permission_arbiter.c:115-140 | in every run no level exceeds USER and the largest grant since creation (SELINUX for the arbiter's own pid) |
| ArbiterRuns.MiddleLevelsOnlyFromAbove | root project/backend/sub_kernel/permission_arbiter.c:227-230 | in every run an entry at level 4 to 7 has come down from 8 or above, as nothing sets the signing flag |
| ArbiterRuns.ConfinedOnlyDescends | root project/backend/sub_kernel/permission_arbiter.c:227-252 | in every run, from when it is seen, an entry without a signalling domain keeps its context and only goes down, as long as its process lives |
| ArbiterRuns.UnreadableIsConfined | root project/backend/sub_kernel/permission_arbiter.c:131-136 | a process whose context cannot be read gets such an entry, of the application sandbox |
| ArbiterRuns.SameViewsIff | root project/backend/sub_kernel/permission_arbiter.c:163-387 | in runs where no registration succeeds and p has or can get an entry, with and without the strangers' requests every request of p or the manager finds the same entry for p, exactly when no reuse of p's pid goes unseen |
| ArbiterRuns.Isolation | root project/backend/sub_kernel/permission_arbiter.c:163-387 | then deleting all strangers' requests leaves every reply to p unchanged (p not the manager; its registration attempts that name another pid left out) |
| ArbiterRuns.UnseenReuseShows | root project/backend/sub_kernel/permission_arbiter.c:163-179 | a stranger's request that reaps p, followed by a reuse of the pid, always shows: SANDBOX with it, the old level without it |
| ArbiterRuns.UnseenReuseIsReachable | root project/backend/sub_kernel/permission_arbiter.c:419-486 | a run from boot in which that happens and every other condition of the isolation holds |
| ArbiterLives.EntriesCurrentIff | root project/backend/sub_kernel/permission_arbiter.c:163-179 | in every run, every entry a request finds was made for the process that has the pid then, exactly when no pid with an entry changes hands between two successive requests |
| ArbiterLives.HighLevelsAreOwn | root project/backend/sub_kernel/permission_arbiter.c:163-297 | in every such run a process found above USER was granted that level itself, under its own identity |
| ArbiterLives.SeparationSuffices | root project/backend/sub_kernel/permission_arbiter.c:163-179 | one request between each death and reuse is enough if no entry is asked for on behalf of a dead pid |
| ArbiterLives.GrantToTheDeadIsInherited | root project/backend/sub_kernel/permission_arbiter.c:276-297 | without that condition the next process with the pid finds the dead one's entry, for every state and sender of such a grant |
| ArbiterLives.GrantToTheDeadIsReachable | root project/backend/sub_kernel/permission_arbiter.c:276-297 | such a grant is possible right after a manager has registered |
| Crc32.Compute | root project/frontend/apps/ssle_packer.c:71-80 | the byte and bit loops compute the checksum function |
| Crc32.CheckValue | root project/frontend/apps/ssle_packer.c:71-80 | the checksum of "123456789" is 0xCBF43926 |
| Crc32.Residue | root project/frontend/apps/ssle_packer.c:71-80 | every message followed by its own checksum has the checksum 0x2144DF1C |
| Crc32.FeedIsFeedBits | root project/frontend/apps/ssle_packer.c:71-80 | byte-wise feeding is the bit-serial register over the message's bits |
| Crc32.FeedWord | root project/frontend/apps/ssle_packer.c:71-80 | k <= 32 bits are k steps from the register xored with their little-endian word |
| Crc32.BurstDetected | root project/frontend/apps/ssle_packer.c:71-80 | differences confined to 32 consecutive bits always change the checksum |
| Crc32.FourByteBurstDetected | root project/frontend/apps/ssle_packer.c:71-80 | so do differences confined to four consecutive bytes |
| Crc32.PatternUndetected | root project/frontend/apps/ssle_packer.c:71-80 | one 33-bit pattern is never detected, so 32 is the limit |
| Crc32.PatternExample | root project/frontend/apps/ssle_packer.c:71-80 | two five-byte messages that differ by it |
| Guard.OopsTable.NoteOops | root project/kernel/modules/guard/guard.c:149-183 | search, eviction of the oldest window, count, storm and kill decision |
| Guard.NewcomerTakesOldest | root project/kernel/modules/guard/guard.c:154-170 | a pid without a slot takes the first of those whose window started earliest, and changes no other |
| Guard.NoEviction | root project/kernel/modules/guard/guard.c:154-170 | in every run over at most 32 pids (pid 0 counted) at times above 0, no non-zero pid loses its slot |
| Guard.EveryEighth | root project/kernel/modules/guard/guard.c:149-183 | in every such run a storm fires exactly at every eighth note of a pid within its window |
| Guard.CountsAreNotes | root project/kernel/modules/guard/guard.c:167-181 | and every slot holds its window's start and its number of notes modulo 8 |
| Guard.RobinNeverStorms | root project/kernel/modules/guard/guard.c:154-170 | 33 pids noted in turn never fire a storm, however long and fast the run |
| Guard.StormIsReal | root project/kernel/modules/guard/guard.c:149-183 | in every run a storm means at least 8 notes of that pid inside one window |
| Guard.SlotsUnique | root project/kernel/modules/guard/guard.c:156-166 | in every run non-zero pids hold at most one slot |
| Guard.CountsBounded | root project/kernel/modules/guard/guard.c:171-181 | in every run counts stay below 8 between calls |
| Guard.FifteenAreEnough | root project/kernel/modules/guard/guard.c:149-183 | after every history, 15 notes of a non-zero pid inside one window fire a storm for it, whether or not it had a slot before, unless it is evicted in between |
| Guard.FifteenFire | root project/kernel/modules/guard/guard.c:149-183 | and in every run over at most 32 pids without that condition |
| Guard.FourteenMayBeQuiet | root project/kernel/modules/guard/guard.c:149-183 | for every non-zero pid and start time, a run from the booted table where 14 notes within two milliseconds fire nothing although the slot is kept |
| Display.AddressDecodes | root project/frontend/deps/display/display.c:66-68 | a visible pixel's bytes are in the buffer and belong to no other pixel |
| Display.RectIsAddressed | root project/frontend/deps/display/display.c:55-76 | the filled bytes are exactly those addressed by visible pixels of the rectangle |
| Display.FillIsPixelsInAnyOrder | root project/frontend/deps/display/display.c:55-91 | from three bytes a pixel on, drawing the points of a rectangle in any order and multiplicity fills it |
| Display.StoresCommuteIff | root project/frontend/deps/display/display.c:69-73 | neighbouring pixel stores commute exactly from three bytes a pixel on |
| Display.ReadBack | root project/frontend/deps/display/display.c:83-91 | a drawn pixel read back is the colour: all of it at 32 bits, else its three low bytes, and no other byte changes |
| Display.RectClip | root project/frontend/deps/display/display.c:60-63 | for every geometry, position and size, clipping drops only points that draw nothing |
| Display.Screen.DrawPixel | root project/frontend/deps/display/display.c:83-91 | three or four stores at the pixel's address, for every geometry; with a proper one that pixel and nothing else |
| Display.Screen.FillRect | root project/frontend/deps/display/display.c:55-76 | for every geometry, the buffer left by drawing every point of the unclipped rectangle row by row; with a proper geometry the clipped rectangle and nothing else |
| Display.Screen.Clear | root project/frontend/deps/display/display.c:78-81 | fills the whole screen |

## Left out

- Rsa.Verify: the key structure's 256-byte modulus field and a 256-byte signature buffer are given; reading them from a header is firmware code.
- BigNum.Reduce: bit indices are unbounded integers, so widths of 2^26 limbs and more, where the C int index would overflow, behave ideally.
- Hmac.BootMac: no claim that it differs from RFC 2104 on keys above 64 bytes, which would need facts about collisions of the hash.
- Sha256Stream.Context.Final: from 2^61 bytes on, where FIPS 180-4 defines no hash, the length field is the bit length modulo 2^64, as in the code.
- Display.Screen.FillRect: stores outside the buffer and overflowing int arithmetic, where C defines nothing, are precondition failures; by `Display.ProperIsAddressable` a proper geometry never makes a store outside.
- Display.Screen.DrawPixel: the same.
- Display.Screen.Clear: the same.
- ArbiterLives.EntriesCurrentIff: processes are identified by a number that the census gives each live pid; that the kernel never gives two processes the same number is not used.
- ArbiterRuns.Isolation: replies to p's registration attempts that name another pid are not covered, since they report that pid's level, which other callers do set.
- Sockets, pid files, logging, reason strings and the capability and resource fields of arbiter requests.
- The enumeration's width: levels are unsigned 32-bit numbers, as common compilers choose for an enumeration without negative members.
- NULL arguments of the reference monitor; a policy file on disk; reading and writing `/proc` attributes.
- Locking in the guard module (one call at a time), and the rest of that module: hooks, sysctl, timers.
- The backend's RSA stub and random bytes, the boot loader's firmware calls, the user interface, the inter-process bus and the build scripts.
- Timing side channels and the hardness of breaking the cryptography.
