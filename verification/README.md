# Proofs about the backend

The backend depends on no crates, so the algorithms a library would normally hide are its own code:
hashing, password storage, JSON, HTTP framing, bounded stores, a connection pool, a database session
protocol, and the retry, queue and quota logic around payments. This project models those parts in
Dafny and proves what they are for.

Code that changes state step by step is modelled as classes and methods with loops, each proved
against a specification function; what the specification promises is then proved about that function.
Where a standard says what the result is, a relation says so without the function, and a lemma that
exactly the function's value meets it.
Code that runs on several threads is modelled as a state machine whose steps interleave freely, and
the claims are about every reachable state. Whatever the program cannot choose (the network, the
clock, random salts, how bytes arrive, which statement fails) is an argument or a free choice.

`dafny verify dfyconfig.toml` checks everything.

| files | what they model |
|---|---|
| `Bits`, `Outcomes`, `Lists`, `Decimal`, `Utf8` | machine words and bytes, result types, decimal numbers, UTF-8 and its order |
| `Sha256`, `Pbkdf2`, `ScryptMix`, `Scrypt`, `PasswordHash` | the streaming hash, HMAC, PBKDF2, scrypt in place, stored hashes |
| `Base64`, `Bcrypt64`, `Percent` | the text codecs |
| `Eviction`, `Csrf`, `Lockout`, `LockoutHistory`, `RateLimit` | the bounded stores, and each against its full history |
| `Json`, `JsonParser`, `JsonLexical`, `JsonGrammar`, `JsonObjects`, `JsonRoundTrip` | the serializer, the cursor parser, the grammar, the members of objects, and both directions between text and value |
| `HttpLines`, `HttpChunked`, `HttpFailures` | bounded line reading from a buffered socket, the chunked coding, and what it refuses |
| `Calendar` | civil dates from day numbers |
| `Pool`, `Hrana`, `Transaction` | the connection pool, the baton protocol, transactions over both |
| `StripeRetry`, `StripeQueue`, `UsageQuota` | retries and the circuit breaker, the job queue, the usage quota |

SHA-256's compression function, Salsa20/8 and the bcrypt verifier are function arguments: the results
hold for every such function. The two conversions between decimal text and floating point are
arguments too, with what the standard library promises of them stated as `Json.Sound`. A floating-point
number is its 64 bits, so the tests for finite and for zero are the real ones.

## Model

| member | source | states |
|---|---|---|
| Sha256.ZeroCountIsLeast | backend/src/crypto.rs:124-147 | The padding has the fewest zero bytes that leave room for the length field in the last block. |
| Sha256.LengthFieldIsExact | backend/src/crypto.rs:124-147 | The 64-bit length field says the true bit length if and only if the message is under 2^61 bytes. |
| Sha256.PaddingIsInjective | backend/src/crypto.rs:124-147 | Two representable messages that pad to the same blocks are the same message. |
| Sha256.Hasher.Update | backend/src/crypto.rs:87-118 | After an update the hasher has absorbed exactly the old input followed by the new, whatever was buffered. |
| Sha256.Hasher.Finalize | backend/src/crypto.rs:124-147 | The destructive padding of the partial block gives the digest that FIPS 180-4 describes: the message, 0x80, the fewest zeros and its bit length; a chain of compressions over the 64-byte blocks from the initial value; and word i of the last value at bytes 4i to 4i + 3. |
| Sha256.DigestIs | backend/src/crypto.rs:87-147 | For every message exactly one byte string is such a digest. |
| Sha256.InitialValueIsRoots | backend/src/crypto.rs:33-35 | The chain starts from the first 32 bits of the fractional parts of the square roots of the first eight primes. |
| Sha256.DigestOfParts | backend/src/crypto.rs:87-147 | Any way of cutting a message into updates hashes as the whole message. |
| Sha256.HmacSha256 | backend/src/crypto.rs:236-260 | The streaming HMAC is the tag that section 2 of RFC 2104 describes, for every key length: the inner hash is over the key block with every byte exclusive-or 0x36 and the text, the outer over the key block with 0x5c and the inner hash. |
| Sha256.HmacIs | backend/src/crypto.rs:236-260 | For every key and text exactly one byte string is such a tag. |
| Pbkdf2.Pbkdf2HmacSha256 | backend/src/kdf.rs:154-179 | The loop over blocks and iterations yields the derived key of RFC 2898, section 5.2, of the requested length: block i is cut from the exclusive-or of a chain of HMACs that starts from the salt and i in four bytes. |
| Pbkdf2.DerivedKeyIs | backend/src/kdf.rs:154-179 | Of each length exactly one byte string is such a key. |
| Pbkdf2.BlocksPrefix | backend/src/kdf.rs:154-179 | Fewer blocks are a prefix of more, so a shorter derived key is a prefix of a longer one. |
| ScryptMix.BlockMixIs | backend/src/kdf.rs:273-287 | A block whose chunks are Y_0, Y_2, ... and then Y_1, Y_3, ... of RFC 7914, section 4, can only be scryptBlockMix. |
| ScryptMix.BlockMixInto | backend/src/kdf.rs:273-287 | The scatter of even and odd chunks into the output buffer computes scryptBlockMix, for every r. |
| ScryptMix.MixesIff | backend/src/kdf.rs:273-287 | scryptBlockMix is the one block that the steps of section 4 lead to: each X the core of the last one exclusive-or the next chunk, and the X of even rounds before those of odd rounds. |
| ScryptMix.MaskedLowWord | backend/src/kdf.rs:293-311 | Masking one low word with n - 1 is Integerify of the whole block modulo N, for every power of two below 2^32. |
| ScryptMix.RoMix | backend/src/kdf.rs:293-311 | Over one flat buffer, in place, the block becomes scryptROMix of it (RFC 7914, section 5), every index is in bounds, and nothing beside the block changes. |
| ScryptMix.RoMixesIff | backend/src/kdf.rs:293-311 | scryptROMix is the one block that the steps of section 5 lead to: a table of n mixes, and n rounds that mix the block exclusive-or the entry its last 64 bytes choose. |
| Scrypt.WordsRoundTrip | backend/src/kdf.rs:332-384 | Little-endian words and the bytes of a block determine each other. |
| Scrypt.DeriveScrypt | backend/src/kdf.rs:332-384 | Each parameter check refuses with its own error, and only what section 6 of RFC 7914 and the address space rule out; otherwise the key is PBKDF2 over blocks that are each scryptROMix of the block in the same place of a first PBKDF2. |
| Scrypt.ScryptIs | backend/src/kdf.rs:332-384 | For every password, salt and cost exactly one byte string of each length is such a key. |
| Scrypt.LimitsSuffice | backend/src/kdf.rs:66-80 | Parameters within the stored limits are never refused, and the mixing buffer takes at most 256 MiB. |
| PasswordHash.ParseHashText | backend/src/kdf.rs:101-135 | A printed hash parses back to its cost, salt and key, and to nothing if its cost is beyond the limits. |
| PasswordHash.ParseLegacyText | backend/src/kdf.rs:101-135 | The two-field layout parses to the cost it was written with. |
| PasswordHash.StoredIff | backend/src/kdf.rs:66-135 | Of every text: it parses to a cost, salt and key if and only if it is one of the two layouts of them, numbers in digits and bytes in base64, and the cost is admitted. |
| PasswordHash.LayoutsNeverConfused | backend/src/kdf.rs:101-135 | No text is a print of both layouts. |
| PasswordHash.ParsedCostIsBounded | backend/src/kdf.rs:66-135 | Whatever text parses, deriving at its cost succeeds within the memory limit. |
| PasswordHash.CtEq | backend/src/crypto.rs:478-487 | The accumulating comparison answers true exactly for equal byte strings. |
| PasswordHash.HashPassword | backend/src/kdf.rs:438-448 | Hashing succeeds for every password and salt, and the text states today's cost in digits, that salt, and the 64-byte scrypt key of the two. |
| PasswordHash.VerifyPassword | backend/src/kdf.rs:467-487 | Of every text: one that starts `scrypt$` is accepted if and only if it is a stored hash whose 64-byte key is the scrypt key at its cost and salt; one that starts `$2`, exactly if the bcrypt verifier accepts; and any other never. |
| PasswordHash.AcceptsIff | backend/src/kdf.rs:467-487 | No text is both: a `scrypt$` text that is no stored hash is refused whatever the bcrypt verifier would say. |
| PasswordHash.TwoFieldsAccept | backend/src/kdf.rs:101-135 | A text of two fields is accepted exactly for its key at (16384, 8, 1). |
| PasswordHash.HashThenVerify | backend/src/kdf.rs:438-506 | For every password and salt, what was hashed verifies and is not due for a rewrite. |
| PasswordHash.AcceptsExactlyTheKey | backend/src/kdf.rs:467-487 | A stored hash accepts a password if and only if the password derives the stored key at the stored cost. |
| PasswordHash.RehashIffCostDiffers | backend/src/kdf.rs:504-506 | A rewrite is due if and only if the recorded cost is not today's. |
| PasswordHash.RehashIff | backend/src/kdf.rs:504-506 | Of every text: no rewrite is due if and only if it is a stored hash at (16384, 8, 1). |
| Decimal.UnsignedIff | backend/src/kdf.rs:101-135 | A text reads as a number if and only if it is that number in digits, perhaps with leading zeros or a plus sign, and the number fits. |
| Base64.EncodeWith | backend/src/crypto.rs:336-358 | The encoding loop writes the letters of the 24-bit groups, padded or not, under either alphabet. |
| Base64.SameBitString | backend/src/crypto.rs:336-358 | The 6-bit fields of the text spell the bits of the bytes in order, filled up with zeros (RFC 4648, section 4). |
| Base64.DecodeAny | backend/src/crypto.rs:379-397 | The bit accumulator yields exactly the decoding of the text, or nothing for a bad letter or length. |
| Base64.DecodedIff | backend/src/crypto.rs:363-397 | A text decodes to given bytes if and only if it is letters of either alphabet whose bits begin with those of the bytes, not one letter more than a multiple of four, and then any number of `=`. |
| Base64.EncodedLength | backend/src/crypto.rs:336-358 | An encoding has four letters to three bytes when padded, and otherwise as few as hold the bits. |
| Base64.DecodingUndoesEncoding | backend/src/crypto.rs:336-397 | Decoding gives back every byte string, padded or not, under both alphabets. |
| Base64.ReencodingIffCanonical | backend/src/crypto.rs:336-397 | Text that decodes is what its bytes encode to if and only if it is all in the one alphabet, its unused bits are zero, and it is padded as that encoding is. |
| Bcrypt64.BcryptEncode | backend/src/kdf.rs:734-762 | bcrypt's encoder writes the letters of the 6-bit fields at every length modulo 3. |
| Bcrypt64.BcryptDecode | backend/src/kdf.rs:769-793 | bcrypt's decoding loop stops, fails and packs bytes as its specification does, for every text and length limit. |
| Bcrypt64.BcryptDecodedIff | backend/src/kdf.rs:769-793 | A text decodes to given bytes if and only if the letters that carry at most that many bytes are in bcrypt's alphabet and their bits begin with those of the bytes. |
| Bcrypt64.BcryptRoundTrip | backend/src/kdf.rs:719-793 | Decoding an encoding gives back the bytes, cut to the requested length. |
| Percent.Decode | backend/src/http.rs:352-379 | The decoding loop agrees with the recursive reading of escapes, and the bytes are then read as text with what is not UTF-8 replaced. |
| Percent.DecodesAs | backend/src/http.rs:352-379 | A percent sign and two digits decode to one byte, a malformed escape to itself, and a plus sign to a space if asked for. |
| Percent.EncodesAs | backend/src/http.rs:385-409 | Letters, digits and nine marks stay, and every other byte becomes a percent sign and two upper-case digits. |
| Percent.DecodeEncode | backend/src/http.rs:352-409 | Decoding undoes encoding for every byte string, whether or not a plus sign means a space. |
| Percent.TextRoundTrip | backend/src/http.rs:352-409 | Every text comes back from its encoding. |
| Eviction.RootIsMax | backend/src/stores.rs:63-94 | The root of the heap is at least every entry. |
| Eviction.SiftUp | backend/src/stores.rs:63-73 | Sifting up the last entry restores the max-heap and keeps its entries. |
| Eviction.SiftDown | backend/src/stores.rs:75-94 | Sifting down the root restores the max-heap and keeps its entries. |
| Eviction.SelectOldest | backend/src/stores.rs:32-61 | In any iteration order the heap ends up holding the oldest entries of the whole map. |
| Eviction.EvictOldestEntries | backend/src/stores.rs:32-61 | The smaller of the size and the cap stays, values unchanged, and nothing that goes is newer than anything that stays. |
| Csrf.CsrfStore.Cleanup | backend/src/stores.rs:145-152 | Exactly the tokens over a day old are counted and go; and if others go, 50,000 stay, none of them older than any that went. |
| Lockout.FailureKeepsWellFormed | backend/src/stores.rs:239-266 | Every reachable record is locked until fifteen minutes after its last attempt if and only if it has five attempts. |
| Lockout.LockoutStore.IsLocked | backend/src/stores.rs:215-233 | The check answers for the one key, removes only an expired lock, and leaves every other record alone. |
| Lockout.WaitIsLeast | backend/src/stores.rs:215-233 | After the wait it answers the lock is over, and a second sooner it is not. |
| Lockout.LockoutStore.RecordFailure | backend/src/stores.rs:239-266 | The record counts the failure, the map stays within 50,000 keys, and other records change only by an eviction of the oldest. |
| Lockout.LockoutStore.Cleanup | backend/src/stores.rs:290-300 | Exactly the expired locks and the counters over fifteen minutes old go, and their number is returned. |
| Lockout.RetainedIffItMatters | backend/src/stores.rs:285-300 | A record is kept if and only if some later sign-in would come out differently without it. |
| Lockout.LiveLocksGoLast | backend/src/stores.rs:309-327 | A live lock is evicted only when no record without one stays, and what goes is no later than what stays, a lock counting from its end. |
| LockoutHistory.RunsAgree | backend/src/routes.rs:455-557 | With any number of sign-ins for one key under way at once, and sweeps and evictions at any moment, the store refuses exactly when all the failures since the last success lock the account and at least five of them came after the latest eviction. |
| LockoutHistory.RecordedWhileLockedIff | backend/src/routes.rs:455-557 | A sign-in under way finds the account locked when it comes to record its failure if and only if it was checked before the step that tripped the latest lock and that lock is not over. |
| LockoutHistory.GuessesInAWindow | backend/src/routes.rs:455-557 | In every run, the failures recorded in less than fifteen minutes, with no success and no eviction in between, are at most five and the sign-ins under way when the fifth was recorded. |
| LockoutHistory.BoundIsMet | backend/src/routes.rs:455-557 | Any number of sign-ins checked at one moment may all fail at that moment, and each counts. |
| LockoutHistory.EvictionsForgive | backend/src/stores.rs:239-327 | With an eviction after each, any number of failures, one after the other at one moment, never lock the account. |
| LockoutHistory.UnlocksIff | backend/src/routes.rs:455-557 | While the account is locked, a step unlocks it if and only if a sign-in under way succeeds or the record is evicted. |
| LockoutHistory.LockHolds | backend/src/routes.rs:455-557 | In every run from a lock on, for fifteen minutes from the failure that set it and until a sign-in under way succeeds or the record is evicted, nobody new is let in, and the lock is at most extended. |
| LockoutHistory.LetInIff | backend/src/routes.rs:455-557 | In every run, somebody new is let in within those fifteen minutes if and only if such a step came first and five failures have not counted since. |
| LockoutHistory.SuccessLetsIn | backend/src/routes.rs:455-557 | Six sign-ins are checked together and five fail: when the sixth succeeds, a seventh is let in at once. |
| LockoutHistory.LockIsServed | backend/src/routes.rs:455-557 | After the fifteen minutes the first sign-in is let in, and the next failure recorded counts as the first. |
| LockoutHistory.CheckFirstMattersOnlyAtTheEnd | backend/src/stores.rs:239-266 | Recording without checking first differs only at the very instant the lock ends. |
| RateLimit.RateLimitStore.CheckAndRecord | backend/src/stores.rs:375-398 | One address is decided and updated by its own window; others change only by an eviction of the oldest. |
| RateLimit.RateLimitStore.Cleanup | backend/src/stores.rs:401-416 | Every address is left with what is in its window, and empty ones go. |
| RateLimit.RunsAgree | backend/src/stores.rs:375-416 | In every run, with sweeps and evictions at any moment, a request is refused if and only if the twentieth last of all the admissions ever made is in its window and came after the latest eviction; the wait answered ends when the oldest such admission leaves the window, rounded up to a second. |
| RateLimit.TwentyOneTakeTheWindow | backend/src/stores.rs:375-416 | In every run, twenty-one admissions with no eviction among them take fifteen minutes at least. |
| RateLimit.RetryIsAdmitted | backend/src/stores.rs:375-416 | In every run, a refused caller that waits as long as it was told, alone, is admitted, whatever is swept or evicted meanwhile. |
| RateLimit.NoSooner | backend/src/stores.rs:375-398 | In every run, a refused caller that comes back a second sooner than it was told is refused again. |
| Utf8.DecodeEncode | backend/src/json.rs:297-341 | Every scalar decodes from its encoding, whose first byte announces its length. |
| Utf8.EncodeDecode | backend/src/json.rs:297-341 | Only the shortest encoding of a scalar decodes, and no surrogate does. |
| Utf8.ByteOrderIsScalarOrder | backend/src/json.rs:452-482 | Texts compare by their bytes as by their scalars, so objects are printed in the order of the model. |
| Utf8.LosslessText | backend/src/http.rs:378 | Reading bytes leniently changes nothing of what is UTF-8. |
| Utf8.BrokenIs | backend/src/http.rs:378 | Where no scalar stands, one U+FFFD replaces the longest start of a scalar that does, or one byte. |
| Json.Printer.WriteString | backend/src/json.rs:488-506 | A text is appended as its literal, scalar by scalar. |
| Json.CharTextIs | backend/src/json.rs:488-506 | Seven scalars have a two-character escape, the other control characters `\u00` and two digits, and everything else stands for itself, as `JSON.stringify` has it. |
| Json.Printer.WriteValue | backend/src/json.rs:452-482 | A value's whole text is appended, lists and objects included. |
| Json.TextIs | backend/src/json.rs:452-482 | What is printed holds no space: brackets, commas between the elements, a colon after each key; a number that is not finite is `null`, and either zero `0`. |
| JsonParser.Parser.HexFour | backend/src/json.rs:369-386 | Four hexadecimal digits folded one at a time are their value, or the error where they stand. |
| JsonParser.Parser.UnicodeEscape | backend/src/json.rs:347-367 | One escape, or two that pair, with the cursor put back when they do not. |
| JsonParser.Parser.String | backend/src/json.rs:297-341 | The string loop reads what the specification reads and stops the cursor where it does, or fails where it fails. |
| JsonParser.Parser.Numeral | backend/src/json.rs:388-430 | The number scanner and its three parts take what the specification takes. |
| JsonParser.Parser.Value | backend/src/json.rs:215-238 | On every byte string and depth the parser terminates with its cursor in bounds and answers as the specification does. |
| JsonParser.Parser.Array | backend/src/json.rs:240-261 | The array loop, its separators and its errors. |
| JsonParser.Parser.Object | backend/src/json.rs:263-295 | The object loop, its separators and errors, and one insertion into the map for each field. |
| JsonParser.Parse | backend/src/json.rs:163-172 | One value, and nothing after it but space. |
| JsonLexical.NumberReads | backend/src/json.rs:388-430 | Every number of section 6 of RFC 8259 is taken whole, whatever ends it. |
| JsonLexical.NumbersOnly | backend/src/json.rs:388-430 | Whatever the scanner takes is such a number. |
| JsonLexical.UnitsRead | backend/src/json.rs:297-367 | Every string of section 7 of RFC 8259 reads as the text it denotes, surrogate pairs joined and lone ones replaced. |
| JsonLexical.UnitsOnly | backend/src/json.rs:297-367 | Whatever reads as a string is one, and reads as the text it denotes. |
| JsonLexical.EscapesAre | backend/src/json.rs:306-323 | The letters of the two-character escapes, and what each stands for. |
| JsonGrammar.DocumentReads | backend/src/json.rs:163-295 | Every document of the grammar, with any space, parses to what it means, or fails if it nests deeper than 128. |
| JsonGrammar.DocumentOnly | backend/src/json.rs:163-295 | Whatever parses is a document of the grammar within the depth limit, and the result is what it means. |
| JsonGrammar.ParsesIff | backend/src/json.rs:163-295 | The parser accepts exactly the documents of the grammar within the depth limit. |
| JsonObjects.InsertFinds | backend/src/json.rs:263-295 | After an insertion the key has the new value, and every other key what it had. |
| JsonObjects.InsertKeepsOrder | backend/src/json.rs:263-295 | Inserting a member keeps the keys strictly increasing. |
| JsonObjects.RecordMeans | backend/src/json.rs:263-295 | A record parses to an object whose keys are those of its fields, in strictly increasing order, each with the value of the last field that has it. |
| JsonRoundTrip.ParseAfterStringify | backend/src/json.rs:163-506 | Any value that nests at most 128 deep parses back as printed; a deeper one fails to parse. |
| JsonRoundTrip.RoundTripIff | backend/src/json.rs:163-532 | A printed value parses back to itself if and only if it is within the depth limit and every number is finite and not negative zero. |
| JsonRoundTrip.ReparseSettles | backend/src/json.rs:163-506 | From any accepted input, printing and parsing again gives the same value, numbers apart that JSON cannot show. |
| JsonRoundTrip.EscapedReads | backend/src/json.rs:347-386 | Every scalar reads back from its `\u` escapes, as a surrogate pair above U+FFFF. |
| JsonRoundTrip.LoneSurrogate | backend/src/json.rs:347-367 | A surrogate without its partner reads as U+FFFD, and what follows it is left to be read. |
| HttpLines.BufReader.ReadLineLimited | backend/src/http.rs:1170-1211 | However the buffer fills, and with any interruptions, the line or the error is a function of the byte stream alone unless the deadline passes, and no sum of sizes wraps a 64-bit word. |
| HttpLines.BufReader.ReadExactTimed | backend/src/http.rs:1146-1160 | Exactly the next bytes of the stream, or how it ended. |
| HttpLines.NextLine | backend/src/http.rs:1170-1211 | A line is cut off the front of the stream, ends in its only line feed, and keeps the count within the maximum. |
| HttpFailures.LineFailsIff | backend/src/http.rs:1163-1211 | A line fails with 431 exactly if more bytes than are left come without a line end, and otherwise, if the bytes run out first, with 408 or none. |
| HttpLines.TrimmedLine | backend/src/http.rs:1214-1223 | Both line ends come off, and nothing else of the line does. |
| HttpChunked.ReadChunked | backend/src/http.rs:1046-1120 | The decoder's outcome is a function of the byte stream unless the deadline passes, its output never exceeds the body limit, and its size arithmetic never wraps. |
| HttpChunked.MessageDecodes | backend/src/http.rs:1046-1120 | Every message within the limits, made of chunks, a last chunk, trailers and a blank line, decodes to its chunks' data, and nothing after it is consumed. |
| HttpChunked.OnlyMessages | backend/src/http.rs:1046-1120 | Whatever decodes is such a message. |
| HttpFailures.FailsIff | backend/src/http.rs:1046-1120 | A body is refused with 413, 431, 400, 408 or no status if and only if, after some whole chunks, the next one breaks in the way that status stands for: over the body limit, an overlong line, a line that announces no size or a chunk without its line end, or bytes that run out. |
| HttpChunked.EverySplitDecodes | backend/src/http.rs:1046-1120 | However a body within the cap is split into chunks, it is put together again. |
| HttpChunked.StrictSizeLine | backend/src/http.rs:1069-1079 | The size lines of section 4.1 of RFC 7230, with digits in either case, leading zeros and any extension, announce the place value of their digits. |
| HttpChunked.SizeReads | backend/src/http.rs:1069-1079 | So do digits between white space, after a plus sign, and before a bare line feed: each reads as the size it announces. |
| HttpChunked.SizeOnly | backend/src/http.rs:1069-1079 | No other line reads as a size. |
| HttpChunked.SizeLineReads | backend/src/http.rs:1069-1079 | Every size below 2^64 is announced by its hexadecimal line. |
| Calendar.CivilIsTheDate | backend/src/http.rs:1387-1398 | For every day number the closed form gives a valid date, and counting days by the calendar gives the number back. |
| Calendar.CivilSuccessor | backend/src/http.rs:1387-1398 | Day 0 is 1 January 1970 and each day is followed by the calendar's next day, for every day number. |
| Calendar.CivilIsBijective | backend/src/http.rs:1387-1398 | Every valid date comes from exactly one day number. |
| Calendar.CivilIsMonotone | backend/src/http.rs:1387-1398 | Later day numbers are later dates. |
| Calendar.CopiesAgree | backend/src/config.rs:557-568 | The copy that narrows month and day to 32 bits loses nothing and agrees. |
| Calendar.IsoNamesTheMoment | backend/src/config.rs:531-546 | The ISO fields are a date and a time of day that name the given millisecond, before the epoch too. |
| Calendar.HttpNamesTheMoment | backend/src/http.rs:1361-1381 | The HTTP date fields name the given second, and the weekday counts from a Thursday on 1 January 1970. |
| Pool.ConnectionPool.TurnOnce | backend/src/db.rs:809-826 | One turn of the checkout loop is one step of the machine: refused, handed a connection, or made to wait. |
| Pool.ConnectionPool.GiveBack | backend/src/db.rs:653-669 | A returned connection is idle again, or shut if the pool has closed, and one wake-up is due in the first case only. |
| Pool.ConnectionPool.CloseAll | backend/src/db.rs:799-806 | Closing shuts every idle connection and leaves those in use to their callers. |
| Pool.StepConserves | backend/src/db.rs:653-826 | Every step keeps each connection in exactly one place: idle, held by one caller, or shut. |
| Pool.StepLosesNoWakeUp | backend/src/db.rs:653-826 | While anyone waits, idle connections never outnumber callers woken or about to wake one. |
| Pool.RunIsSafe | backend/src/db.rs:653-826 | Every interleaving of checkouts, returns, panics, spurious wake-ups and closings keeps all of this. |
| Pool.SizeIsKept | backend/src/db.rs:653-826 | Idle and held connections make up the pool's size until it is closed. |
| Pool.NothingAfterClose | backend/src/db.rs:799-826 | Once closed, the pool hands out no connection in any run. |
| Pool.NobodyIsStranded | backend/src/db.rs:653-826 | A caller waits only while another holds a connection, is awake, or is about to wake one. |
| Hrana.KindIsByKeyword | backend/src/hrana.rs:171-185 | Looking at eight characters decides as the whole statement does, in any case and after any space. |
| Hrana.FailedBeginKeepsBatonIff | backend/src/hrana.rs:58-133 | A failed `BEGIN` leaves a baton if and only if the reply carries one, has no error among its results, and either lists no results or has an executed statement without a result first. |
| Hrana.BatonWithoutResults | backend/src/hrana.rs:77-85 | A reply with a baton and no results is such a reply. |
| Hrana.AnswerIs | backend/src/hrana.rs:58-133 | Of every reply: which one gives a good answer and what it carries, which error is reported and with what message, and which baton is kept. |
| Hrana.FirstExecuteIs | backend/src/hrana.rs:246-308 | The result answered is the one the first executed item carries, nothing is answered exactly if no item is executed, and it is an error if that item carries none. |
| Hrana.FindIs | backend/src/hrana.rs:225-308 | Looking up a key of a parsed object gives the one value it has there. |
| Hrana.Session.Run | backend/src/hrana.rs:58-92 | One SQL statement, its kind read from its text, with its request or response lost or not, leaves session and server as the specification says. |
| Hrana.Session.Close | backend/src/hrana.rs:135-160 | Dropping a session sends the baton it holds, if any, with a request that closes the stream. |
| Hrana.DropKeepsStep | backend/src/hrana.rs:135-160 | That baton was never sent before and is not refused. |
| Hrana.ReplyReads | backend/src/hrana.rs:225-308 | The baton, the error with its message, and the result in a server's reply are what the client reads from it. |
| Hrana.StatementKeepsStep | backend/src/hrana.rs:58-133 | A client that holds a baton holds the one the live stream expects, and has never sent it. |
| Hrana.NeverRefused | backend/src/hrana.rs:652-672 | In every run of a session to its drop, with anything lost, no baton is sent twice and the server never refuses a stream as unknown. |
| Hrana.StatementOutcome | backend/src/hrana.rs:58-133 | The answer is the result that the server gave, or the message it failed with, or that nothing arrived; and the server's stream, the baton kept and the batons sent follow from what was sent and what failed. |
| Transaction.RunTransaction | backend/src/db.rs:781-793 | The transaction with its rollback guard does what the specification says on every path, panics included. |
| Transaction.TxGuard.Drop | backend/src/db.rs:858-868 | The guard rolls back unless the commit was seen to succeed. |
| Transaction.TransactionOutcome | backend/src/db.rs:781-868 | For every closure, whatever it does about errors, and whatever fails: no baton is left, and committed is either every write that landed, or only what landed after an answer was lost. |
| Transaction.FailureLeavesNothingIff | backend/src/db.rs:762-793 | For every closure, a transaction that does not commit leaves the data as it was if and only if no lost answer is followed by a statement that lands and writes. |
| Transaction.PropagatingIsAtomic | backend/src/db.rs:762-793 | A closure that gives up at its first error is all or nothing: success means exactly its writes were committed, failure before the commit none, and a failed commit all or none as it reached the server or not. |
| Transaction.AccountIsWhole | backend/src/db.rs:1576-1581 | `create_account` is such a closure: user and credentials are both stored or neither is. |
| Transaction.ResetIsWhole | backend/src/db.rs:1500-1518 | So is `reset_usage_window`. |
| Transaction.ConsumeIsWhole | backend/src/db.rs:1466-1482 | So is `consume_usage`, whether or not a row changed. |
| Transaction.IdleSessionHoldsNoBaton | backend/src/db.rs:750-868 | Over all runs of transactions and plain statements, an idle session holds no baton. |
| StripeRetry.OpenIff | backend/src/stripe.rs:791-811 | The breaker is open if and only if at least three failures were recorded since the last success and the latest is under thirty seconds old. |
| StripeRetry.SendWithRetry | backend/src/stripe.rs:860-899 | With the breaker open nothing is sent; otherwise requests stop at the first reply that is neither missing nor 429 nor a 5xx, or at the fifth, and exactly one success or failure is recorded. |
| StripeRetry.WaitIs | backend/src/stripe.rs:830-834 | A `Retry-After` that is a number is waited out in seconds, sixty at most; without one the delay is a second, doubled at each attempt. |
| StripeRetry.OperationsOverlap | backend/src/stripe.rs:791-899 | In every interleaving of the requests of any number of operations on the shared breaker, one that has ended sent at most five requests, slept at most 240 seconds and recorded exactly once, and the next to enter is refused exactly by what was recorded. |
| StripeRetry.RecordIsTheOutcome | backend/src/stripe.rs:860-899 | In every such state an operation ends at its first final reply, with a success recorded, or at its fifth request, with a failure. |
| StripeRetry.SleepIsBounded | backend/src/stripe.rs:830-899 | An operation sleeps at most sixty seconds a retry and 240 seconds in all, whatever the server asks for. |
| StripeRetry.SleepWithoutHeader | backend/src/stripe.rs:860-899 | Without a usable `Retry-After` the sleeps add up to 2^k - 1 seconds, fifteen at most. |
| StripeQueue.StripeWorker.LookAt | backend/src/stripe_worker.rs:212-216 | A job is found worth running if and only if its deadline has not come when the worker looks, and otherwise its caller is told. |
| StripeQueue.StripeWorker.CallStripe | backend/src/stripe_worker.rs:217-245 | Stripe is called for a job for which it was not called before. |
| StripeQueue.StripeWorker.Answer | backend/src/stripe_worker.rs:217-245 | The reply goes to a caller that no reply was sent to before, after Stripe was called for its job. |
| StripeQueue.EveryRun | backend/src/stripe_worker.rs:166-246 | In every interleaving the queue holds at most 32 jobs, the two workers take the accepted jobs once each and in order, and Stripe is called at most once for a job, and only if it was found worth running before its caller gave up. |
| StripeQueue.AnsweredOnce | backend/src/stripe_worker.rs:212-268 | In every interleaving a job that was taken is answered exactly once, as soon as no worker is at it: with Stripe's answer if Stripe was called, and otherwise that it came too late. |
| StripeQueue.NeverCalledLate | backend/src/stripe_worker.rs:189-246 | Once a caller has timed out on a job whose deadline no worker has yet looked at, Stripe is never called for it. |
| StripeQueue.CalledLateIff | backend/src/stripe_worker.rs:189-246 | Stripe can still be called for a job whose caller has timed out if and only if a worker looked at the deadline before that and has not made its call. |
| StripeQueue.CalledAfterGivingUp | backend/src/stripe_worker.rs:189-246 | A run in which it is. |
| UsageQuota.UserRow.ConsumeUsage | backend/src/db.rs:1466-1482 | The count goes up by one only below the limit, and the answer is the new count. |
| UsageQuota.UserRow.Usage | backend/src/routes.rs:728-759 | The handler resets, consumes, refuses or looks by what it read earlier, not by what is stored. |
| UsageQuota.QuotaHolds | backend/src/routes.rs:728-759 | With a limit of at least one, in every interleaving on stale reads the count is the number of grants since the last committed reset, never passes the limit, and all grants are bounded by the resets. |
| UsageQuota.NoGrantBelowOne | backend/src/routes.rs:728-735 | A limit below one grants nothing. |
| UsageQuota.AnswerIsItsPlace | backend/src/routes.rs:728-759 | The answer tells a caller its place among the grants of the window, and a refusal means the limit is reached. |
| UsageQuota.GrantsInAWindow | backend/src/routes.rs:728-759 | In every run the grants in the open window are the stored count and what stale resets struck from it; windows never overlap exactly if each reset found the row as it was read or its window over, and then no window holds more than the limit. |
| UsageQuota.StaleIff | backend/src/routes.rs:736-751 | A committed reset strikes out a window that is not over if and only if it acts on a read from before the latest reset and within thirty days of it. |
| UsageQuota.StaleResetsForget | backend/src/routes.rs:736-751 | Any number of requests that read the same expired window all reset it: that many grants, and a count of one. |

## Left out

- Sha256.Hasher.Update: the compression function is an argument, so the round constants are not part of the model.
- ScryptMix.BlockMixInto: Salsa20/8 is an argument; what is proved is where its results go.
- PasswordHash.VerifyPassword: the bcrypt verifier behind `$2` hashes is an argument, and Blowfish is not modelled.
- PasswordHash.HashPassword: the random salt is an argument, so that salts differ is not stated.
- Lockout.FailureKeepsWellFormed: attempts are unbounded, while the program's 32-bit count would wrap after four billion failures.
- LockoutHistory.RunsAgree: steps come in the order of their times, while the program reads the clock just before it takes the store's lock, and the clock may be set back.
- RateLimit.RunsAgree: steps come in the order of their times.
- JsonRoundTrip.RoundTripIff: the shortest decimal of a floating-point number is an argument, and so is reading it back.
- JsonParser.Parse: which message a failure carries, and where, is said by the specification functions only.
- Hrana.AnswerIs: the result is the reply's own object; its rows are not decoded cell by cell.
- Calendar.CivilIsTheDate: day numbers are unbounded; the program's sum would wrap in the last 719,468 days that 64 bits can name.
- Hrana.NeverRefused: a server that expires a stream while its client still holds the baton is not modelled.
- Hrana.StatementKeepsStep: the server is the single-use one of the source's own suite, with one live stream.
- Transaction.TransactionOutcome: a closure chooses its next statement by whether the last answer was good, not by the rows in it.
- StripeRetry.SendWithRetry: its contract is for an operation by itself; `StripeRetry.OperationsOverlap` is for any that overlap.
- StripeQueue.EveryRun: a worker that dies is not modelled.
- UsageQuota.QuotaHolds: the user's row exists; one deleted between the read and the update is not modelled.
- HttpLines.BufReader.ReadExactTimed: the buffered reads inside the standard library's `read_exact` are one step.
- Running out of memory, SQLite, libcurl, sockets, the file system, configuration, logging and request routing.
- The hexadecimal codec, cookies, headers and response building: easy members.
- The application's own tables, orders, seats and seeding: easy members.
- Applying webhooks: a subscription update that fails is still recorded as handled (backend/src/routes.rs:933-957), so the comment that recorded implies applied does not hold as written.
