# Verified models of the Moa wallet, server and payment code

This project models the parts of the repository that hold state, arithmetic or a protocol, and
proves what they promise. It verifies with `dafny verify dfyconfig.toml`.

| part | files |
|---|---|
| RIPEMD-160 (`RIPEMD160.java`) | `Words`, `JavaInts`, `RipemdStandard`, `RipemdTables`, `RipemdRounds`, `RipemdMessage`, `RipemdPadding`, `Ripemd160` |
| Peer-to-peer broadcast and routing table (`Node.java`) | `Broadcast`, `RouteTable` |
| UTXO ledger (`Transaction.java`) | `Ledger`, `LedgerLaws`, `LedgerAcceptance`, `LedgerIds`, `LedgerSigns`, `LedgerExamples` |
| Android wallet: storage, restore, password reset (`Wallet.java`) | `Wallet`, `WalletSettings`, `WalletLaws`, `MacLaws`, `RestoreLaws`, `WalletExamples`, `DateOfBirth` |
| Restore messages from JavaScript to Java and back | `Base64`, `Hex`, `Tokens`, `RestorePipeline` |
| Registration and login, with the text file behind them | `Login`, `LoginLaws`, `AuthFile`, `AuthFileLaws` |
| Simple payment (`ActionHandlerImpl.java`, `KiccTransaction.java`) | `Payment`, `NonceLaws` |
| What all of them share | `Wrappers` |

The Java classes that update fields are Dafny classes with the same fields, and the loops of the
source are loops. Each such method is proved against a specification function, and the lemmas are
about those functions. Code made of expressions stays functions.

## Main results

- **RIPEMD-160.** The five fused loops of `compress` compute the two independent 80-step lines of the
  standard (Dobbertin, Bosselaers and Preneel 1996, Appendix A), whose word orders and constants are
  derived from its permutations and roots and compared with the tables of the source. Every run of the
  four update methods leaves a state that is a function of the concatenated bytes, so the digest does
  not depend on the chunking. Each line is a bijection for a fixed block.
- **Where the hash is not RIPEMD-160.** The cast `(int) input` keeps the sign of a byte, and the byte
  count is an `int`. The blocks compressed are those of the standard (padding as in sections 3.1 and 3.2
  of RFC 1320) if and only if no negative byte stands at a position other than 3 modulo 4 and the byte
  count n satisfies `n mod 2^61 < 2^31` or `n mod 2^61 >= 2^61 - 2^31` (`RipemdPadding.BlocksConform`).
  ASCII messages of any practical length conform.
- **Broadcast.** With any tables at each moment, any losses and any delivery order, a broadcast of index
  k causes at most 2^(k+1) receives and no path has more than k+1 hops. When slots obey the distance
  rule, every id gets exactly one share, delivered, in flight or dropped, in every state of every run.
  So every broadcast without loss serves each node exactly once if and only if no slot is empty. The
  live routing table fills only slots 36, 39, 42 and 45, so a broadcast of a smaller index forwards
  nothing.
- **Ledger.** The change of the total of unspent values by an accepted transaction is given exactly:
  what repeated inputs add, minus the change row lost when the remainder is not the text of an `int`
  (`Integer.valueOf` throws after the rows are written). It is conserved iff neither happens, and along
  every run of balanced requests; concrete messages show both failures.
- **Who spends.** A message is accepted iff its signature verifies under the key it names, every input
  is an unspent row of that key, all values can be read and the inputs are worth the outputs
  (`LedgerAcceptance.AcceptedIff`); the answer is "valid" iff moreover no value has decimal places and
  the change is below 2^31. Over any run a row is spent at most once, by its owner, in a request whose
  signature verifies under the row's key (`SpentBySignature`); a row written can be named by its
  addressee and by nobody else.
- **Ids and replays.** The unseparated id preimages of n outputs are distinct for all messages iff n <=
  9. An accepted message is accepted again iff it has no input (`LedgerIds.ReplayedIff`), and then
  repeats its ids. With a hash that does not collide on the texts that occur, all new ids of a run are
  fresh iff the preimages of each accepted message differ and no valid message without inputs is sent
  twice (`LedgerIds.FreshIff`); so always for messages with an input and at most nine outputs.
- **Negative outputs.** Validation compares sums alone. On a table without negative rows, with distinct
  inputs and change that fits, what can be spent stays the same iff no output is negative, and grows
  otherwise: a row of 5 is spent to outputs of 100 and -95. Without negative outputs no run gives a
  negative row.
- **Wallet.** A wallet saved opens under its password and under no other, as far as hash and HMAC do not
  collide on the two, and no longer once any of its seven authenticated entries is overwritten with
  another value (`MacLaws.TamperedIff`); after a committed reset only the new password opens it. A
  restore message printed on one device opens on another to the same key and address. A password reset
  leaves the wallet untouched until it is committed, whatever fails on the way; a commit keeps the keys;
  the new password then passes the MAC check iff version, operating system, salt and iteration count
  read as they did when it was prepared. A commit without preparation, such as a second one, leaves a
  wallet no password opens; a restore fails iff the public key has no address or RSA does not take
  E(prk), and has then replaced the salt, so the old password opens the wallet iff that salt is the
  same. The check before it vouches for E(puk) alone: a genuine HMAC beside a long E(prk) locks the
  wallet.
- **Restore messages.** A printed message survives registration, storage, the reply and
  `convertRestoreDataFormat`. Registration succeeds iff the id is known and no field is empty, since
  `StringTokenizer` drops empty tokens while `split` keeps them.
- **Date-of-birth envelope.** The half split separates ciphertext and HMAC iff the password hash has at
  most 14 bytes; then a date verifies iff its folded HMAC of the ciphertext is that of the right date;
  it decrypts to the hash itself iff it has exactly 14. A forged text verifies iff its last 16 bytes are
  the folded HMAC of the rest. The XOR folds and the short hash of Java and JavaScript agree.
- **Authentication file.** An append refines appending to a list exactly on Windows when the file does
  not end with a newline (or, without a prefix, when it ends with one); under Linux the prefix leaves a
  blank line, behind which no record is found. Search, get and remove refine the list. Registration
  followed by login succeeds with exactly the passwords of the same authentication text: with the
  password registered and no other, if cipher and hashes do not collide on the two.
- **Payment.** A payment is sent iff the member has an entry and the request names a card by its secret
  key and brings the digest, under that key, of the stored nonce, member and order, for an unpaid order
  (`NonceLaws.SentIff`); a nonce works once. Behind everything sent or set in a run stands an earlier
  request of the same member that was given the nonce. Over every prefix of every run, sends to the
  gateway never exceed the nonces stored, per member and per kind of nonce. The order sent is the
  request's, so it is the one confirmed iff the two agree, and a nonce stored for a password reset
  serves as well. A payment is confirmed iff it was sent, freshly approved and taken by the merchant; it
  is cancelled exactly once iff approved and refused. So an approved payment is neither confirmed nor
  cancelled iff the callback throws, or the merchant takes it while the gateway gives a cancel date.

## How to read the models

- Cryptography is a record of function parameters with the laws each theorem names (decryption undoes
  encryption, lengths). Random bytes, the UUID, the operating system's name and the time stamp are
  arguments. Collision freedom is a hypothesis about given texts: two in `WalletLaws.CommitOpens`,
  `MacLaws` and `LoginLaws.LoginIffRegistered`, those of a run in `LedgerIds`.
- A character of a text stands for one UTF-16 unit of Java.
- Java exceptions are `None`, `Threw` or a failure code, with the state they leave behind.
- The SQL of the ledger is not in this repository; its meaning is that of the statements in the
  comments at `Transaction.java` lines 153 and 178 and of the step comments from line 65 on. A decimal is
  an unscaled integer with a scale, as in `BigDecimal`.
- `compress` is one method in the source; here its loops (`RunLines`) and its last five assignments
  (`CombineResults`) are two. The body that the three update methods repeat is `XorIn`, its zeroing loop
  `ClearWorking`.
- The preference stores are maps; a missing entry reads as "".
- The two generators of the authentication text at registration and login are one function of the source
  written twice, and one method here.

## Model

| member | source | states |
|---|---|---|
| `RipemdStandard.ConstantsAreRoots` | moaCoreAuthLib/src/common/crypto/RIPEMD160.java:84-162 | the eight nonzero constants are the rounded-down roots of 2, 3, 5 and 7 the standard prescribes |
| `Words.RotationMovesBits` | moaCoreAuthLib/src/common/crypto/RIPEMD160.java:64-162 | a rotation by s moves bit i of a word to position i + s modulo 32, for every word and 0 < s < 32 |
| `RipemdStandard.CompressAt` | moaCoreAuthLib/src/common/crypto/RIPEMD160.java:164-171 | word i of the result adds word i + 1 of the chaining value, i + 2 of the left and i + 3 of the right line, modulo 5 |
| `RipemdMessage.InitialBytes` | moaCoreAuthLib/src/common/crypto/RIPEMD160.java:26-48 | the initial words hold the bytes 01 23 to ef, fe to 10 and f0 e1 d2 c3 |
| `RipemdStandard.UnstepInverts` | moaCoreAuthLib/src/common/crypto/RIPEMD160.java:64-82 | the explicit inverse undoes every step of either line, in both orders |
| `RipemdStandard.LineIsBijection` | moaCoreAuthLib/src/common/crypto/RIPEMD160.java:64-162 | running the inverse steps backwards recovers the start state of a line, and conversely, for every block and step count |
| `RipemdTables.LeftRound` | moaCoreAuthLib/src/common/crypto/RIPEMD160.java:5-24 | the left word and shift tables hold the words and amounts the standard derives from its permutation rho |
| `RipemdTables.RightRound` | moaCoreAuthLib/src/common/crypto/RIPEMD160.java:5-24 | the same of the right tables, derived from pi and rho |
| `RipemdTables.TablesAgree` | moaCoreAuthLib/src/common/crypto/RIPEMD160.java:5-24 | both tables give the standard's word and rotation at every one of the 80 steps |
| `RipemdRounds.FF` | moaCoreAuthLib/src/common/crypto/RIPEMD160.java:64-72 | the first half of the first loop is a step of the left line |
| `RipemdRounds.JJJ` | moaCoreAuthLib/src/common/crypto/RIPEMD160.java:73-82 | the second half of the first loop is a step of the right line |
| `RipemdRounds.GG` | moaCoreAuthLib/src/common/crypto/RIPEMD160.java:84-92 | likewise in the second loop, left |
| `RipemdRounds.III` | moaCoreAuthLib/src/common/crypto/RIPEMD160.java:93-102 | likewise in the second loop, right |
| `RipemdRounds.HH` | moaCoreAuthLib/src/common/crypto/RIPEMD160.java:104-112 | likewise in the third loop, left |
| `RipemdRounds.HHH` | moaCoreAuthLib/src/common/crypto/RIPEMD160.java:113-122 | likewise in the third loop, right |
| `RipemdRounds.II` | moaCoreAuthLib/src/common/crypto/RIPEMD160.java:124-132 | likewise in the fourth loop, left |
| `RipemdRounds.GGG` | moaCoreAuthLib/src/common/crypto/RIPEMD160.java:133-142 | likewise in the fourth loop, right |
| `RipemdRounds.JJ` | moaCoreAuthLib/src/common/crypto/RIPEMD160.java:144-152 | likewise in the fifth loop, left |
| `RipemdRounds.FFF` | moaCoreAuthLib/src/common/crypto/RIPEMD160.java:153-162 | likewise in the fifth loop, right |
| `Ripemd160.RIPEMD160.RunLines` | moaCoreAuthLib/src/common/crypto/RIPEMD160.java:51-162 | the fused loops end with both 80-step lines run from the chaining value |
| `Ripemd160.RIPEMD160.CombineResults` | moaCoreAuthLib/src/common/crypto/RIPEMD160.java:164-170 | the assignments in place equal the simultaneous five-word combination |
| `Ripemd160.RIPEMD160.Compress` | moaCoreAuthLib/src/common/crypto/RIPEMD160.java:51-171 | `compress` is the standard's compression function, for every chaining value and block |
| `RipemdMessage.FeedByteInside` | moaCoreAuthLib/src/common/crypto/RIPEMD160.java:196-200 | a byte that does not fill the block changes the buffer and not the chaining value |
| `RipemdMessage.FeedByteLast` | moaCoreAuthLib/src/common/crypto/RIPEMD160.java:200-207 | the 64th byte compresses the block of the last 64 bytes and empties the buffer |
| `RipemdMessage.FinishFolds` | moaCoreAuthLib/src/common/crypto/RIPEMD160.java:173-191 | finishing compresses the one or two closing blocks of the whole message |
| `Ripemd160.RIPEMD160.constructor` | moaCoreAuthLib/src/common/crypto/RIPEMD160.java:27-37 | a new object has been fed nothing |
| `Ripemd160.RIPEMD160.Reset` | moaCoreAuthLib/src/common/crypto/RIPEMD160.java:39-49 | `reset` gives the state of a new object |
| `Ripemd160.RIPEMD160.XorIn` | moaCoreAuthLib/src/common/crypto/RIPEMD160.java:210-220 | one byte keeps chaining value, buffer and pointer functions of the bytes fed |
| `Ripemd160.RIPEMD160.Update` | moaCoreAuthLib/src/common/crypto/RIPEMD160.java:196-207 | the state stays a function of the bytes fed, with one more |
| `Ripemd160.RIPEMD160.UpdateAll` | moaCoreAuthLib/src/common/crypto/RIPEMD160.java:209-222 | likewise for an array |
| `Ripemd160.RIPEMD160.UpdateSlice` | moaCoreAuthLib/src/common/crypto/RIPEMD160.java:224-252 | the bytes of the slice clamped at the array end are fed; with a negative offset the call fails unchanged iff a byte would be read; the byte count stays right iff the arguments describe a slice and do not overflow, or nothing is read and len is 0 |
| `Ripemd160.SliceIs` | moaCoreAuthLib/src/common/crypto/RIPEMD160.java:224-252 | inside the array the slice named is read, one over the end stops there, and one whose end wraps around is empty |
| `Ripemd160.RIPEMD160.UpdateString` | moaCoreAuthLib/src/common/crypto/RIPEMD160.java:254-260 | the low byte of each character is fed |
| `Ripemd160.RIPEMD160.MDfinish` | moaCoreAuthLib/src/common/crypto/RIPEMD160.java:173-191 | the chaining value becomes the fold over all blocks of the message |
| `Ripemd160.RIPEMD160.DigestBin` | moaCoreAuthLib/src/common/crypto/RIPEMD160.java:262-269 | the digest of the bytes fed, whatever the chunks |
| `Ripemd160.RIPEMD160.DigestOf` | moaCoreAuthLib/src/common/crypto/RIPEMD160.java:271-274 | update and digest in one |
| `Ripemd160.RIPEMD160.DigestHex` | moaCoreAuthLib/src/common/crypto/RIPEMD160.java:276-290 | the hex text of that digest |
| `Ripemd160.RIPEMD160String` | moaCoreAuthLib/src/common/crypto/RIPEMD160.java:324-330 | the one-shot method gives the hex digest of the low bytes of the text |
| `Hex.ByteToHexIsByteText` | moaCoreAuthLib/src/common/crypto/RIPEMD160.java:305-322 | `byteToHex` prints two lower-case hex digits of every byte, negative ones included |
| `RipemdPadding.SerializeKeepsWords` | moaCoreAuthLib/src/common/crypto/RIPEMD160.java:265-267 | the bytes hold the five words, little-endian |
| `RipemdPadding.LittleEndianBytes` | moaCoreAuthLib/src/common/crypto/RIPEMD160.java:196-197 | of the four bytes of a word the first is the lowest |
| `JavaInts.WordOfInt` | moaCoreAuthLib/src/common/crypto/RIPEMD160.java:187-190 | an int is written in binary: its last bit is the parity, the others are its half, and negative numbers wrap |
| `Ripemd160.LowByteKeeps` | moaCoreAuthLib/src/common/crypto/RIPEMD160.java:254-260 | of a UTF-16 unit the low byte is fed, and only the high one is lost |
| `RipemdPadding.BlockCount` | moaCoreAuthLib/src/common/crypto/RIPEMD160.java:173-191 | exactly ceil((n+9)/64) blocks are compressed, on both branches of the test for 55 |
| `RipemdPadding.SignedSlots` | moaCoreAuthLib/src/common/crypto/RIPEMD160.java:197 | the word XORed together is the little-endian word iff none of its first three bytes is negative |
| `RipemdPadding.BufferWords` | moaCoreAuthLib/src/common/crypto/RIPEMD160.java:196-199 | word w of the buffer is the XOR of the shifted, sign-extended bytes 4w to 4w+3 |
| `RipemdPadding.BlockWord` | moaCoreAuthLib/src/common/crypto/RIPEMD160.java:173-222 | every word compressed before the length words is the padded message, sign-extended inside the message |
| `RipemdPadding.LengthWords` | moaCoreAuthLib/src/common/crypto/RIPEMD160.java:187-190 | the last two words are the int count shifted left by 3 and right by 29 |
| `RipemdPadding.HighLengthWord` | moaCoreAuthLib/src/common/crypto/RIPEMD160.java:189 | the second length word is right exactly for the byte counts that fit |
| `RipemdPadding.BlocksConform` | moaCoreAuthLib/src/common/crypto/RIPEMD160.java:173-222 | the blocks compressed are the standard's iff no negative byte stands at a position other than 3 modulo 4 and the byte count fits |
| `RipemdPadding.DigestConforms` | moaCoreAuthLib/src/common/crypto/RIPEMD160.java:262-269 | for such messages the digest is the standard's |
| `RipemdPadding.NegativeByteDeviates` | moaCoreAuthLib/src/common/crypto/RIPEMD160.java:197 | the message 0x80, 0x00 is packed differently from the standard |
| `Broadcasts.UdpBroadcast` | moaCoreAuthLib/src/server/p2p/Node.java:565-574 | the countdown loop sends index i-1 to outer slot i for i from k to 0, skipping empty slots |
| `Broadcasts.ForwardsAre` | moaCoreAuthLib/src/server/p2p/Node.java:565-574 | for any table, exactly the filled slots up to k are served, each with the index below its own |
| `Broadcasts.ForwardsInOrder` | moaCoreAuthLib/src/server/p2p/Node.java:565-574 | the highest slot first, and none twice |
| `Broadcasts.StepWeighs` | moaCoreAuthLib/src/server/p2p/Node.java:556-574 | every receive or loss lowers the sum of 2^(index+1) over the messages in flight |
| `Broadcasts.BroadcastTerminates` | moaCoreAuthLib/src/server/p2p/Node.java:556-574 | any run of a broadcast of index k, with any tables at each moment, any order and loss, has at most 2^(k+1) receives |
| `Broadcasts.PathsAreShort` | moaCoreAuthLib/src/server/p2p/Node.java:565-574 | a chain of forwardings from index k, each over the tables of its moment, has at most k+1 hops |
| `Broadcasts.FlipObeys` | moaCoreAuthLib/src/server/p2p/Node.java:231-242 | the id with bit i flipped obeys the distance rule of slot i |
| `Broadcasts.ForwardsPartition` | moaCoreAuthLib/src/server/p2p/Node.java:556-574 | a message of index k covers an id exactly once among the receiver itself, its forwards and its empty slots |
| `Broadcasts.EachIdInOnePlace` | moaCoreAuthLib/src/server/p2p/Node.java:556-574 | in every state of every run over obeying tables, changing or not, each h-bit id has exactly one share, delivered, in flight or dropped |
| `Broadcasts.ExactlyOnceIffNothingDropped` | moaCoreAuthLib/src/server/p2p/Node.java:556-574 | a finished run serves every node exactly once and none else iff nothing was lost and no slot was empty |
| `Broadcasts.ExactlyOnceCoverage` | moaCoreAuthLib/src/server/p2p/Node.java:556-574 | with complete tables and no loss a broadcast of index h-1 serves each of the 2^h nodes exactly once, in every order |
| `Broadcasts.FinishingRun` | moaCoreAuthLib/src/server/p2p/Node.java:556-574 | every state can be run without loss until nothing is in flight |
| `Broadcasts.ServesIffComplete` | moaCoreAuthLib/src/server/p2p/Node.java:556-574 | tables that obey the distance rule serve every node exactly once, from every start and in every order without loss, iff no slot is empty |
| `Broadcasts.LiveTablesForwardNothing` | moaCoreAuthLib/src/server/p2p/Node.java:115-152 | tables filled by `regist` have slots 36, 39, 42 and 45 only, so a broadcast of index below 36 forwards nothing |
| `RouteTables.GetSubtreeIndex` | moaCoreAuthLib/src/server/p2p/Node.java:155-197 | the local variables end as the code of minimum, quadrant and axis flags, the self-distance calls giving slot 3 |
| `RouteTables.Quadrants` | moaCoreAuthLib/src/server/p2p/Node.java:155-197 | the slot says whether the node lies east and whether it lies north of this one |
| `RouteTables.AxisIndexIs` | moaCoreAuthLib/src/server/p2p/Node.java:199-227 | an axis index depends on the distance alone, and is DIVIDE_COUNT at distance zero |
| `RouteTables.EncodeDecode` | moaCoreAuthLib/src/server/p2p/Node.java:194-196 | minimum and flags are recovered from the code by division with remainder |
| `RouteTables.DecodeEncode` | moaCoreAuthLib/src/server/p2p/Node.java:194-196 | every integer with a possible flag part is the code of what it decodes to |
| `RouteTables.AxisIndicesRecovered` | moaCoreAuthLib/src/server/p2p/Node.java:155-197 | one axis attains the minimum, so the code of any axis indices decodes to their minimum, signs and flags |
| `RouteTables.RouteTable.Regist` | moaCoreAuthLib/src/server/p2p/Node.java:115-152 | an invalid node and the node itself change nothing; a free slot takes the node; the inner table stays as it was |
| `RouteTables.RegistrationRuns` | moaCoreAuthLib/src/server/p2p/Node.java:115-152 | after any run every slot holds the first node that claimed it, and only slots 36, 39, 42, 45 are filled |
| `RouteTables.OccupiedSlotStays` | moaCoreAuthLib/src/server/p2p/Node.java:142-150 | an occupied slot is never overwritten |
| `Ledgers.Ledger.ReceiveFromClient` | moaCoreAuthLib/src/server/Transaction.java:39-98 | validation, then the rows written step by step, also when the last conversion throws, end in the specified tables |
| `Ledgers.Ledger.SpendInputs` | moaCoreAuthLib/src/server/Transaction.java:65-70 | the loop marks every row named by an input |
| `Ledgers.Ledger.SaveOutputs` | moaCoreAuthLib/src/server/Transaction.java:72-84 | the loop appends one numbered row for each output |
| `Ledgers.Ledger.UtxoCheck` | moaCoreAuthLib/src/server/Transaction.java:141-165 | true iff every input names an unspent row of the signer |
| `Ledgers.Ledger.ValueCheck` | moaCoreAuthLib/src/server/Transaction.java:167-195 | sums of inputs and outputs, their comparison and the remainder, or an exception for an unreadable value |
| `LedgerAcceptance.AcceptedIff` | moaCoreAuthLib/src/server/Transaction.java:100-195 | with distinct ids a message is accepted iff its signature verifies under its key, every input names an unspent row of that key, all values can be read, and the inputs are worth the outputs |
| `LedgerAcceptance.AnswerIs` | moaCoreAuthLib/src/server/Transaction.java:39-98 | "valid" iff accepted, without decimal places, and with change below 2^31; an exception iff a value cannot be read or an accepted message is not so; written to iff accepted |
| `LedgerAcceptance.SpentBySignature` | moaCoreAuthLib/src/server/Transaction.java:57-195 | every row spent during a run was spent by an accepted request that names it and whose signature verifies under the row's key |
| `LedgerAcceptance.UnsignedChangesNothing` | moaCoreAuthLib/src/server/Transaction.java:54-138 | without a signature that verifies nothing is written and the answer is not "valid" |
| `LedgerAcceptance.OutputIsAddressees` | moaCoreAuthLib/src/server/Transaction.java:72-84 | the row of an output can be named as an input by its addressee alone, and carries its value, number and transaction |
| `LedgerAcceptance.ChangeIsSigners` | moaCoreAuthLib/src/server/Transaction.java:86-95 | the change row can be named by the signer alone, and has number 0 |
| `LedgerLaws.PlusNumber` | moaCoreAuthLib/src/server/Transaction.java:180 | adding unscaled values at the larger scale adds the numbers |
| `LedgerLaws.MinusNumber` | moaCoreAuthLib/src/server/Transaction.java:189 | subtracting likewise |
| `LedgerLaws.Account` | moaCoreAuthLib/src/server/Transaction.java:57-95 | how far an accepted transaction moves the total of unspent values: repeated inputs added, the lost change subtracted |
| `LedgerLaws.ConservedIffChangeFits` | moaCoreAuthLib/src/server/Transaction.java:86-95 | with distinct inputs the total is unchanged iff the remainder is zero or the text of an int |
| `LedgerLaws.ConservedIffBalanced` | moaCoreAuthLib/src/server/Transaction.java:57-95 | for inputs of any value the total is unchanged iff the inputs listed again are worth just the change that is lost |
| `LedgerLaws.ConservedIffDistinct` | moaCoreAuthLib/src/server/Transaction.java:65-70 | with a remainder that fits, and named rows worth more than zero, the total is unchanged iff no input is repeated |
| `LedgerLaws.RunConserves` | moaCoreAuthLib/src/server/Transaction.java:57-95 | the total is constant along every run of balanced requests with fresh ids |
| `LedgerSigns.StaysNonNegativeIff` | moaCoreAuthLib/src/server/Transaction.java:72-95 | a table without negative rows stays without iff the accepted message has no negative output |
| `LedgerSigns.SpendableAccount` | moaCoreAuthLib/src/server/Transaction.java:167-195 | how far an accepted message moves what can be spent; with distinct inputs and change that fits it stays the same iff no output is negative, and grows otherwise |
| `LedgerSigns.RunStaysSpendable` | moaCoreAuthLib/src/server/Transaction.java:57-95 | without negative outputs no run gives a negative row, and what can be spent is constant where the total is |
| `LedgerExamples.PlainPrintsExactly` | moaCoreAuthLib/src/server/Transaction.java:189 | a library of plain decimals meets what the theorems ask of printing and parsing |
| `LedgerExamples.RepeatedInputDoubles` | moaCoreAuthLib/src/server/Transaction.java:65-70 | a row of 5 listed twice is accepted for an output of 10, and the total goes from 5 to 10 |
| `LedgerExamples.FractionIsLost` | moaCoreAuthLib/src/server/Transaction.java:86-95 | a remainder of 0.5 makes the conversion throw, and the total goes from 1.5 to 1 |
| `LedgerExamples.LargeChangeIsLost` | moaCoreAuthLib/src/server/Transaction.java:86-95 | a remainder of 2^31 is lost whole |
| `LedgerExamples.NegativeOutputCreates` | moaCoreAuthLib/src/server/Transaction.java:183-188 | a row of 5 is spent to outputs of 100 and -95: the total stays 5, and 100 can be spent |
| `LedgerExamples.GiftRepeatsAnId` | moaCoreAuthLib/src/server/Transaction.java:57-95 | a concrete message without inputs is accepted twice and gives two rows the same id |
| `LedgerLaws.StepKeepsIds` | moaCoreAuthLib/src/server/Transaction.java:72-95 | given fresh ids for the new rows, spending and adding keep the ids of the table distinct |
| `LedgerLaws.RunKeepsIds` | moaCoreAuthLib/src/server/Transaction.java:72-95 | so over every run of such requests |
| `LedgerIds.IdsAre` | moaCoreAuthLib/src/server/Transaction.java:65-95 | the ids of the table after a run are those before it and the hashes of the preimages of all accepted messages, in order |
| `LedgerIds.NoReplay` | moaCoreAuthLib/src/server/Transaction.java:141-165 | a message with an input that was accepted is never accepted again, under any signature |
| `LedgerIds.GiftIsAcceptedAgain` | moaCoreAuthLib/src/server/Transaction.java:141-195 | a message without inputs that was accepted is accepted in every state, whatever the tables hold |
| `LedgerIds.ReplayedIff` | moaCoreAuthLib/src/server/Transaction.java:141-195 | after any further run an accepted message is accepted again under its signature iff it has no input |
| `LedgerIds.ReplayRepeatsIds` | moaCoreAuthLib/src/server/Transaction.java:57-95 | accepted again, a message without inputs that has an output makes ids repeat, whatever the hash |
| `LedgerIds.OwnPreimagesDistinctIff` | moaCoreAuthLib/src/server/Transaction.java:72-95 | the preimages of an accepted message are distinct iff they are with the transaction hash left off |
| `LedgerIds.PreimagesAreDistinct` | moaCoreAuthLib/src/server/Transaction.java:72-95 | the preimages of a whole run are distinct if those of each accepted message are and no valid message without inputs is sent twice |
| `LedgerIds.FreshIff` | moaCoreAuthLib/src/server/Transaction.java:57-95 | under a hash of fixed width without collisions on the texts of the run every new id is fresh iff the preimages of each accepted message are distinct and no valid message without inputs is sent twice |
| `LedgerIds.FreshByHash` | moaCoreAuthLib/src/server/Transaction.java:57-95 | so every new id is fresh if all messages have an input and at most nine outputs |
| `LedgerIds.HashedRunConserves` | moaCoreAuthLib/src/server/Transaction.java:57-95 | under such a hash, and the two conditions of freshness, ids stay distinct and the total is constant along every balanced run |
| `LedgerLaws.InputIsOwned` | moaCoreAuthLib/src/server/Transaction.java:141-165 | an input of an accepted transaction names an unspent row of the signer |
| `LedgerLaws.StepFollows` | moaCoreAuthLib/src/server/Transaction.java:57-95 | one request only adds rows and changes tails from "0" to a saved transaction of the row's owner; new rows have a saved head |
| `LedgerLaws.RunFollows` | moaCoreAuthLib/src/server/Transaction.java:57-95 | so between any two states of a run: a UTXO is spent at most once and only by its owner |
| `LedgerLaws.RejectedChangesNothing` | moaCoreAuthLib/src/server/Transaction.java:54-97 | a request that is not accepted changes neither table |
| `LedgerLaws.PreimageParts` | moaCoreAuthLib/src/server/Transaction.java:79-91 | a preimage is index, value, key and transaction one behind the other |
| `LedgerLaws.SameLengthIndicesDiffer` | moaCoreAuthLib/src/server/Transaction.java:79 | preimages of two outputs whose indices have as many digits differ |
| `LedgerLaws.ChangeDiffers` | moaCoreAuthLib/src/server/Transaction.java:91 | the change preimage differs from that of every output |
| `LedgerLaws.PreimagesDistinctIff` | moaCoreAuthLib/src/server/Transaction.java:72-95 | the preimages of n outputs and the change are distinct in every message iff n is at most 9 |
| `LedgerLaws.TenOutputsCanCollide` | moaCoreAuthLib/src/server/Transaction.java:79 | a message with more outputs whose first and tenth preimage are the same |
| `Hex.HexStringToByteArray` | AndroidBcWallet/wallet/src/main/java/org/moa/wallet/android/api/MoaCommon.java:63-71 | the loop decodes pairs of digits, of any script as `Character.digit` reads them, and runs off the end of an odd text |
| `Hex.JavaDecimalIs` | AndroidBcWallet/wallet/src/main/java/org/moa/wallet/android/api/MoaCommon.java:67-68 | the characters that read as a decimal digit are those of ASCII and of the other scripts, each for the number it stands for |
| `Hex.LettersRead` | AndroidBcWallet/wallet/src/main/java/org/moa/wallet/android/api/MoaCommon.java:67-68 | the characters that read as 10 to 15 are the ASCII letters to F in both cases and their full-width forms |
| `Hex.ByteArrayToHexString` | AndroidBcWallet/wallet/src/main/java/org/moa/wallet/android/api/MoaCommon.java:73-79 | the loop prints two lower-case digits a byte |
| `Hex.BytesOfText` | AndroidBcWallet/wallet/src/main/java/org/moa/wallet/android/api/MoaCommon.java:63-79 | printing and decoding bytes gives them back |
| `Hex.TextOfBytes` | AndroidBcWallet/wallet/src/main/java/org/moa/wallet/android/api/MoaCommon.java:63-79 | decoding and printing a text gives it back in lower case iff it is ASCII hex |
| `Base64.DecodeEncode` | JavascriptSrc/WebContent/wallet/moaSecurityJS/moaBCWalletLib-v1.0.2.js:298-316 | Base64 is a round trip |
| `Base64.NoSeparators` | JavascriptSrc/WebContent/wallet/moaSecurityJS/moaBCWalletLib-v1.0.2.js:298-316 | it prints neither separator nor line end |
| `Tokens.SplitJoin` | JavascriptSrc/WebContent/wallet/moaSecurityJS/moaBCWalletLib-v1.0.2.js:440-445 | splitting joined fields gives them back, empty ones included |
| `Tokens.TokenizeJoin` | moaCoreAuthLib/src/org/moa/core/auth/server/api/MoaServerCoreAuthLib.java:538-556 | tokenizing them gives the non-empty ones |
| `Tokens.StringTokenizer.NextToken` | moaCoreAuthLib/src/org/moa/core/auth/server/api/MoaServerCoreAuthLib.java:150-151 | a cursor over the tokens that fails behind the last |
| `RestorePipeline.WalletServer.HandleWalletReq` | moaCoreAuthLib/src/org/moa/core/auth/server/api/MoaServerCoreAuthLib.java:538-556 | dispatch on the header, and the fixed reply to anything else or any exception |
| `RestorePipeline.TurnedDown` | moaCoreAuthLib/src/org/moa/core/auth/server/api/MoaServerCoreAuthLib.java:538-650 | every request turned down, with its fixed reply: unknown header, unreadable id, unknown id, missing fields; the accounts stay |
| `RestorePipeline.WalletServer.RegistFranchWallet` | moaCoreAuthLib/src/org/moa/core/auth/server/api/MoaServerCoreAuthLib.java:579-612 | only a known id is updated, only when all tokens are there |
| `RestorePipeline.WalletServer.SelectFranchWallet` | moaCoreAuthLib/src/org/moa/core/auth/server/api/MoaServerCoreAuthLib.java:614-638 | the stored fields, or the failure reply |
| `RestorePipeline.RestoreDataSplits` | JavascriptSrc/WebContent/wallet/moaSecurityJS/moaBCWalletLib-v1.0.2.js:298-316 | a printed restore message splits into its four fields |
| `RestorePipeline.RegistMsgSplits` | JavascriptSrc/WebContent/wallet/moaSecurityJS/moaClientCoreAuthLib-v1.0.1.js:142-163 | the registration request carries id, password text, E(prk) and E(puk) with HMAC and salt, for every password |
| `RestorePipeline.HexPassword` | JavascriptSrc/WebContent/wallet/moaSecurityJS/moaClientCoreAuthLib-v1.0.1.js:159 | a hex password goes as the Base64 text of its bytes, empty only for the empty password |
| `RestorePipeline.RegistrationSucceedsIff` | moaCoreAuthLib/src/org/moa/core/auth/server/api/MoaServerCoreAuthLib.java:579-612 | the request succeeds, and is stored, iff the id is known and no field is empty |
| `RestorePipeline.BlobSlices` | JavascriptSrc/WebContent/wallet/moaSecurityJS/moaBCWalletLib-v1.0.2.js:440-456 | the slices counted from the end find E(puk) and the salt for every length of E(puk) |
| `RestorePipeline.ReplyConverts` | JavascriptSrc/WebContent/wallet/moaSecurityJS/moaBCWalletLib-v1.0.2.js:440-456 | the reply about a stored wallet converts to its three fields |
| `RestorePipeline.RestoreRoundTrip` | JavascriptSrc/WebContent/wallet/moaSecurityJS/moaBCWalletLib-v1.0.2.js:298-456 | print, register, store, reply, convert: the fields come back exactly |
| `RestorePipeline.VerifyPswIs` | JavascriptSrc/WebContent/wallet/moaSecurityJS/moaBCWalletLib-v1.0.2.js:505-517 | for every length it accepts iff 97 bytes are there and the HMAC of the first 65 is what stands in the next 32 |
| `RestorePipeline.VerifyPswChecksHmac` | JavascriptSrc/WebContent/wallet/moaSecurityJS/moaBCWalletLib-v1.0.2.js:505-517 | for a public key of 65 bytes the answer is whether the HMAC under the password given is the one stored |
| `DateOfBirth.UnpadPad` | AndroidBcWallet/wallet/src/main/java/org/moa/wallet/manager/Wallet.java:230-240 | removing PKCS#7 padding undoes adding it |
| `DateOfBirth.UnpadIff` | AndroidBcWallet/wallet/src/main/java/org/moa/wallet/manager/Wallet.java:230-240 | what is unpadded is exactly what has 1 to 16 bytes behind it that say how many they are |
| `DateOfBirth.FoldJava` | AndroidBcWallet/wallet/src/main/java/org/moa/wallet/manager/Wallet.java:250-257 | the loop folds the two halves of the HMAC by XOR |
| `DateOfBirth.FoldJs` | JavascriptSrc/WebContent/wallet/moaSecurityJS/moaBCWalletLib-v1.0.2.js:484-501 | the loop over hex text gives the hex text of the same fold |
| `DateOfBirth.FoldBits` | AndroidBcWallet/wallet/src/main/java/org/moa/wallet/manager/Wallet.java:354-357 | bit b of byte i of the fold is set iff it differs in the bytes i of the two halves |
| `DateOfBirth.GetEncryptedHmacPsw` | AndroidBcWallet/wallet/src/main/java/org/moa/wallet/manager/Wallet.java:220-261 | ciphertext of random byte and hash, then the folded HMAC of it; a failure for hex text of odd length |
| `DateOfBirth.VerifyDateOfBirth` | AndroidBcWallet/wallet/src/main/java/org/moa/wallet/manager/Wallet.java:338-360 | whether the second half is the HMAC of the first folded at distance 16; a failure when the HMAC is too short for that |
| `DateOfBirth.HalfSplit` | AndroidBcWallet/wallet/src/main/java/org/moa/wallet/manager/Wallet.java:338-349 | the middle of the envelope separates ciphertext and HMAC iff the hash has at most 14 bytes |
| `DateOfBirth.EnvelopeVerifies` | AndroidBcWallet/wallet/src/main/java/org/moa/wallet/manager/Wallet.java:220-360 | up to 14 bytes the right date of birth is accepted |
| `DateOfBirth.EnvelopeVerifiesIff` | AndroidBcWallet/wallet/src/main/java/org/moa/wallet/manager/Wallet.java:220-360 | up to 14 bytes any date is accepted iff the folded HMACs of the ciphertext under it and under the right date are equal |
| `DateOfBirth.VerifiedIff` | AndroidBcWallet/wallet/src/main/java/org/moa/wallet/manager/Wallet.java:338-360 | any text, forged or not, is accepted iff its second half has 16 bytes, each the XOR of bytes i and i + 16 of the HMAC of the first half |
| `DateOfBirth.EnvelopeDecrypts` | AndroidBcWallet/wallet/src/main/java/org/moa/wallet/manager/Wallet.java:438-461 | decryption gives the hash filled up with zeros to 14 bytes, the hash itself iff it has 14 |
| `DateOfBirth.WordToByteArray` | JavascriptSrc/WebContent/wallet/moaSecurityJS/moaBCWalletLib-v1.0.2.js:224-234 | the loops give the four bytes of every word |
| `DateOfBirth.WordsRoundTrip` | JavascriptSrc/WebContent/wallet/moaSecurityJS/moaBCWalletLib-v1.0.2.js:224-234 | the words of a byte string give its bytes back, negative words included |
| `DateOfBirth.WalletsAgreeOnHmacPsw` | JavascriptSrc/WebContent/wallet/moaSecurityJS/moaBCWalletLib-v1.0.2.js:236-245 | the JavaScript wallet derives the hex text of the 14 bytes the Java wallet derives |
| `DateOfBirth.JavaParity` | AndroidBcWallet/wallet/src/main/java/org/moa/wallet/manager/Wallet.java:208-222 | the remainder of a byte by 2 is -1 for odd negative ones |
| `Wallets.Wallet.constructor` | AndroidBcWallet/wallet/src/main/java/org/moa/wallet/manager/Wallet.java:53-60 | the wallet starts on the main store with the empty password |
| `Wallets.Wallet.SetValuesInPreferences` | AndroidBcWallet/wallet/src/main/java/org/moa/wallet/manager/Wallet.java:496-502 | one entry of the store the flag selects, and nothing else |
| `Wallets.Wallet.InitProperties` | AndroidBcWallet/wallet/src/main/java/org/moa/wallet/manager/Wallet.java:520-533 | the nine defaults, unless a version is there |
| `Wallets.Wallet.GetSalt` | AndroidBcWallet/wallet/src/main/java/org/moa/wallet/manager/Wallet.java:425-436 | the salt stored, or a new one, which is stored |
| `Wallets.Wallet.DeriveKey` | AndroidBcWallet/wallet/src/main/java/org/moa/wallet/manager/Wallet.java:535-556 | key and IV cut from the derived key, with the failures of parsing, of the range of int and of slicing |
| `Wallets.Wallet.EncryptPBKDF2` | AndroidBcWallet/wallet/src/main/java/org/moa/wallet/manager/Wallet.java:544-556 | encryption under the key derived from the password and the salt of the selected store |
| `Wallets.Wallet.DecryptPBKDF2` | AndroidBcWallet/wallet/src/main/java/org/moa/wallet/manager/Wallet.java:544-556 | decryption likewise |
| `Wallets.Wallet.SetWalletPref` | AndroidBcWallet/wallet/src/main/java/org/moa/wallet/manager/Wallet.java:620-643 | the MAC stored is the one computed from the store as it then is |
| `Wallets.Wallet.CheckMACData` | AndroidBcWallet/wallet/src/main/java/org/moa/wallet/manager/Wallet.java:645-663 | whether address and MAC fit the password |
| `Wallets.Wallet.GetDecryptedPrivateKey` | AndroidBcWallet/wallet/src/main/java/org/moa/wallet/manager/Wallet.java:665-677 | RSA, then password decryption of the stored key |
| `Wallets.Wallet.UnlockForSigning` | AndroidBcWallet/wallet/src/main/java/org/moa/wallet/manager/Wallet.java:263-285 | a key is handed on iff the check passes and decryption gives one |
| `Wallets.Wallet.Save` | AndroidBcWallet/wallet/src/main/java/org/moa/wallet/manager/Wallet.java:679-702 | the store after saving a key pair, on every path of failure too |
| `Wallets.Wallet.SaveMessage` | AndroidBcWallet/wallet/src/main/java/org/moa/wallet/manager/Wallet.java:131-180 | the store after saving a restore message; the password field is untouched by a refused message, holds the password after an exception, and is empty otherwise |
| `Wallets.Wallet.GenerateRestoreDataFormat` | AndroidBcWallet/wallet/src/main/java/org/moa/wallet/manager/Wallet.java:704-726 | the message printed, "" when encryption failed |
| `Wallets.Wallet.VerifyHmacPsw` | AndroidBcWallet/wallet/src/main/java/org/moa/wallet/manager/Wallet.java:189-205 | whether the message's HMAC is that of its E(puk) under the password |
| `Wallets.Wallet.RestoreWallet` | AndroidBcWallet/wallet/src/main/java/org/moa/wallet/android/api/MoaWalletHelper.java:140-153 | the check, then the part behind the separator is saved |
| `Wallets.Wallet.RecoverKeys` | AndroidBcWallet/wallet/src/main/java/org/moa/wallet/manager/Wallet.java:362-387 | both keys decrypted under the old password, read from the main store |
| `Wallets.Wallet.GenerateBackUpRestoreDataFormat` | AndroidBcWallet/wallet/src/main/java/org/moa/wallet/manager/Wallet.java:362-400 | both stores and the flag after preparing a reset, on every path of failure too |
| `Wallets.Wallet.RemoveTempWallet` | AndroidBcWallet/wallet/src/main/java/org/moa/wallet/manager/Wallet.java:323-329 | the temporary store is empty, the flag off, the wallet as it was |
| `Wallets.Wallet.UpdateWallet` | AndroidBcWallet/wallet/src/main/java/org/moa/wallet/manager/Wallet.java:402-419 | five entries move from the temporary store to the wallet, and the temporary store is emptied |
| `WalletLaws.DecryptionInverts` | AndroidBcWallet/wallet/src/main/java/org/moa/wallet/manager/Wallet.java:535-556 | stores that agree on cipher and iterations decrypt each other's ciphertexts |
| `WalletLaws.SavedOpens` | AndroidBcWallet/wallet/src/main/java/org/moa/wallet/manager/Wallet.java:620-702 | a wallet saved passes the check and decrypts to the private key given, with the public key and its address |
| `MacLaws.OnlyItsPassword` | AndroidBcWallet/wallet/src/main/java/org/moa/wallet/manager/Wallet.java:568-663 | a wallet that opens to one password opens to another iff they have the same bytes, as far as hash and printed HMAC do not collide on the two |
| `MacLaws.SavedOpensOnly` | AndroidBcWallet/wallet/src/main/java/org/moa/wallet/manager/Wallet.java:645-702 | so a wallet that was saved |
| `MacLaws.ResetOpensOnly` | AndroidBcWallet/wallet/src/main/java/org/moa/wallet/manager/Wallet.java:362-419 | and a wallet whose genuine reset was committed: the old password opens it no more unless it is the new one |
| `MacLaws.TamperedIff` | AndroidBcWallet/wallet/src/main/java/org/moa/wallet/manager/Wallet.java:645-663 | overwriting any of the seven authenticated entries makes the check fail, unless the value is the one it had |
| `WalletSettings.ParsesDecimal` | AndroidBcWallet/wallet/src/main/java/org/moa/wallet/manager/Wallet.java:535-556 | every int setting is read back from its decimal text, with or without sign, and nothing beyond |
| `WalletSettings.KeyIs` | AndroidBcWallet/wallet/src/main/java/org/moa/wallet/manager/Wallet.java:535-556 | key and IV are the 48 derived bytes one behind the other, the key with as many whole bytes as the setting has bits |
| `WalletSettings.DefaultCipher` | AndroidBcWallet/wallet/src/main/java/org/moa/wallet/manager/Wallet.java:520-556 | a new store encrypts under AES/CTR/NoPadding with 32 bytes of key and 16 of IV from 4096 rounds |
| `WalletSettings.InitializedIff` | AndroidBcWallet/wallet/src/main/java/org/moa/wallet/manager/Wallet.java:520-533 | the defaults change a store iff it has no version, and once |
| `WalletSettings.AddressIs` | AndroidBcWallet/wallet/src/main/java/org/moa/wallet/manager/Wallet.java:558-566 | the address is the hash of the public key without its first twelve bytes |
| `WalletSettings.SavedOutcome` | AndroidBcWallet/wallet/src/main/java/org/moa/wallet/manager/Wallet.java:620-702 | when saving throws and when it is refused, and what the store is then |
| `WalletSettings.PreparedFlag` | AndroidBcWallet/wallet/src/main/java/org/moa/wallet/manager/Wallet.java:362-400 | a preparation leaves the temporary store selected iff it throws with the keys in hand; its message is printed from the store it leaves |
| `WalletSettings.FirstFieldAsks` | AndroidBcWallet/wallet/src/main/java/org/moa/wallet/manager/Wallet.java:362-387 | the wallet is asked for its salt as soon as the message begins with one readable field, also if it then throws |
| `WalletSettings.DropEmptyIs` | AndroidBcWallet/wallet/src/main/java/org/moa/wallet/manager/Wallet.java:195-197 | what `split` drops are the empty fields at the end, and all of them |
| `WalletLaws.EventIs` | AndroidBcWallet/wallet/src/main/java/org/moa/wallet/manager/Wallet.java:323-419 | what preparing, aborting and committing make of both stores and the flag |
| `WalletLaws.FailedRestoreReplacesSalt` | AndroidBcWallet/wallet/src/main/java/org/moa/wallet/manager/Wallet.java:141-168 | a restore that is not done has replaced the salt and nothing else |
| `RestoreLaws.RestoredIff` | AndroidBcWallet/wallet/src/main/java/org/moa/wallet/manager/Wallet.java:131-180 | a restore is done iff E(puk) decrypts to a key with an address and RSA takes E(prk); otherwise the store is unchanged iff its salt is that of the message |
| `RestoreLaws.RestoredIs` | AndroidBcWallet/wallet/src/main/java/org/moa/wallet/manager/Wallet.java:131-180 | the wallet restored passes the check, has the public key decrypted and its address, and opens to what E(prk) decrypts to |
| `RestoreLaws.HmacVerifiedIs` | AndroidBcWallet/wallet/src/main/java/org/moa/wallet/manager/Wallet.java:189-205 | a printed message passes iff its HMAC is that of its E(puk): E(prk) and salt play no part |
| `RestoreLaws.RefusedMessageChangesNothing` | AndroidBcWallet/wallet/src/main/java/org/moa/wallet/android/api/MoaWalletHelper.java:140-153 | a message that does not pass leaves the store as it was |
| `RestoreLaws.SaltlessMessageThrows` | AndroidBcWallet/wallet/src/main/java/org/moa/wallet/manager/Wallet.java:131-205 | a message cut off behind E(puk) passes the check, and restoring it throws before anything is stored |
| `RestoreLaws.VerifiedVouches` | AndroidBcWallet/wallet/src/main/java/org/moa/wallet/manager/Wallet.java:131-205 | a verified restore vouches for public key and address: with another E(prk) it succeeds too, and opens to the other key |
| `RestoreLaws.OverlongKeyReplacesSalt` | AndroidBcWallet/wallet/src/main/java/org/moa/wallet/manager/Wallet.java:131-205 | a message with an E(prk) too long for RSA passes the check, is not stored, and replaces the salt |
| `RestoreLaws.FailedRestoreOpensIff` | AndroidBcWallet/wallet/src/main/java/org/moa/wallet/manager/Wallet.java:141-168 | after a failed restore the password of the wallet passes the check before signing iff the salt is the one it had |
| `WalletExamples.FailedRestoreLocksWallet` | AndroidBcWallet/wallet/src/main/java/org/moa/wallet/manager/Wallet.java:131-205 | under a concrete library a wallet that opened no longer does after a message of 246 bytes of E(prk), which passed the check |
| `WalletLaws.DeviceToDevice` | AndroidBcWallet/wallet/src/main/java/org/moa/wallet/manager/Wallet.java:131-205 | a message printed on one device is verified on another and stored iff the address is there and RSA works; the wallet then opens to the same key, with the same public key and address |
| `WalletLaws.PreparationKeepsMain` | AndroidBcWallet/wallet/src/main/java/org/moa/wallet/manager/Wallet.java:362-400 | preparing changes the wallet iff it has no salt and the request gets as far as asking for it |
| `WalletLaws.MainUntilCommit` | AndroidBcWallet/wallet/src/main/java/org/moa/wallet/manager/Wallet.java:323-419 | no run of preparations and aborts, failed or not, changes a wallet with a salt; after an abort it is selected again |
| `WalletLaws.CommitOpens` | AndroidBcWallet/wallet/src/main/java/org/moa/wallet/manager/Wallet.java:402-419 | after a commit the new password decrypts the key, and passes the check iff the head of the authenticated text is the same, given that the printed MAC tells the two texts apart |
| `WalletLaws.GenuineRecovers` | AndroidBcWallet/wallet/src/main/java/org/moa/wallet/manager/Wallet.java:362-387 | envelope and message made from the wallet give back its keys and salt |
| `WalletLaws.PreparedIff` | AndroidBcWallet/wallet/src/main/java/org/moa/wallet/manager/Wallet.java:362-400 | a preparation that gets hold of the keys succeeds iff the address is not empty and both encryptions work |
| `WalletLaws.ResetKeepsKeys` | AndroidBcWallet/wallet/src/main/java/org/moa/wallet/manager/Wallet.java:362-419 | a genuine request is prepared iff the keys can be stored, and committed it leaves the same keys, address and salt, opened by the new password |
| `WalletLaws.CommitWithoutPreparation` | AndroidBcWallet/wallet/src/main/java/org/moa/wallet/manager/Wallet.java:402-419 | a commit of an empty temporary store leaves a wallet no password opens |
| `WalletLaws.SecondCommitErases` | AndroidBcWallet/wallet/src/main/java/org/moa/wallet/manager/Wallet.java:402-419 | so a second commit destroys the wallet |
| `AuthFiles.BufferedReader.ReadLine` | moaCoreAuthLib/src/org/moa/core/auth/server/api/FranchiseAuthDBProcess.java:123 | lines end with a newline, a carriage return or both |
| `AuthFiles.LinesBehind` | moaCoreAuthLib/src/org/moa/core/auth/server/api/FranchiseAuthDBProcess.java:76-81 | what a newline and more text behind a file make of its lines |
| `AuthFiles.PrintThenParse` | moaCoreAuthLib/src/org/moa/core/auth/server/api/FranchiseAuthDBProcess.java:32-50 | a record is read back from its line iff its fields are not empty and hold no separator |
| `AuthFiles.FranchiseAuthDB.FileStorageProcess` | moaCoreAuthLib/src/org/moa/core/auth/server/api/FranchiseAuthDBProcess.java:53-96 | the file with the record behind it; a new file is reported as a failure although it is written |
| `AuthFiles.FranchiseAuthDB.Scan` | moaCoreAuthLib/src/org/moa/core/auth/server/api/FranchiseAuthDBProcess.java:123-137 | the loop finds the first matching record before any unreadable line |
| `AuthFiles.FranchiseAuthDB.SearchProcess` | moaCoreAuthLib/src/org/moa/core/auth/server/api/FranchiseAuthDBProcess.java:99-154 | "0x6010", "0x6011", null for a missing file, or an exception |
| `AuthFiles.FranchiseAuthDB.GetProcess` | moaCoreAuthLib/src/org/moa/core/auth/server/api/FranchiseAuthDBProcess.java:156-216 | salt and password of that record, null, or an exception |
| `AuthFiles.FranchiseAuthDB.CopyOthers` | moaCoreAuthLib/src/org/moa/core/auth/server/api/FranchiseAuthDBProcess.java:252-268 | the loop copies the lines of all other ids and notes a match |
| `AuthFiles.FranchiseAuthDB.RemoveRecordProcess` | moaCoreAuthLib/src/org/moa/core/auth/server/api/FranchiseAuthDBProcess.java:219-294 | the file becomes those lines, and the report says whether one matched; an exception leaves it as it was |
| `AuthFileLaws.SearchesAnswer` | moaCoreAuthLib/src/org/moa/core/auth/server/api/FranchiseAuthDBProcess.java:99-216 | over a list of records, search answers membership and get the first match |
| `AuthFileLaws.FirstIs` | moaCoreAuthLib/src/org/moa/core/auth/server/api/FranchiseAuthDBProcess.java:132-136 | the first match is the record of least index |
| `AuthFileLaws.WithoutKeeps` | moaCoreAuthLib/src/org/moa/core/auth/server/api/FranchiseAuthDBProcess.java:261-267 | removal keeps every other record as often as it was, and their first matches |
| `AuthFileLaws.WithoutDrops` | moaCoreAuthLib/src/org/moa/core/auth/server/api/FranchiseAuthDBProcess.java:261-267 | no match is left, and a list without one is unchanged |
| `AuthFileLaws.RemovalRefines` | moaCoreAuthLib/src/org/moa/core/auth/server/api/FranchiseAuthDBProcess.java:219-294 | removal leaves the file of the list without the matching records and reports a match iff there was one |
| `AuthFileLaws.ReturnsWritten` | moaCoreAuthLib/src/org/moa/core/auth/server/api/FranchiseAuthDBProcess.java:219-294 | the file written contains carriage returns iff the system is Windows and a line is left |
| `AuthFileLaws.AppendRefinesIff` | moaCoreAuthLib/src/org/moa/core/auth/server/api/FranchiseAuthDBProcess.java:74-83 | appending to the file appends to the list exactly under the stated condition on system and last character |
| `AuthFileLaws.AppendsRefine` | moaCoreAuthLib/src/org/moa/core/auth/server/api/FranchiseAuthDBProcess.java:74-83 | so for every run of appends under Windows |
| `AuthFileLaws.StoreFromNothing` | moaCoreAuthLib/src/org/moa/core/auth/server/api/FranchiseAuthDBProcess.java:53-154 | what a store begun with one record answers after any run of appends |
| `AuthFileLaws.LinuxAppendHides` | moaCoreAuthLib/src/org/moa/core/auth/server/api/FranchiseAuthDBProcess.java:77 | after an append under Linux only the earlier records are found, every other search fails, and so does every removal |
| `AuthFileLaws.AppendAfterRemovalHides` | moaCoreAuthLib/src/org/moa/core/auth/server/api/FranchiseAuthDBProcess.java:263 | the same of the first append after a removal under Windows |
| `Logins.AuthInfoGen` | moaCoreAuthLib/src/org/moa/core/auth/server/api/MoaServerCoreAuthLib.java:315-463 | the salt's first byte decides data and key, negative bytes included |
| `Logins.CoreAuthServerMsgPacketParser` | moaCoreAuthLib/src/org/moa/core/auth/server/api/MoaServerCoreAuthLib.java:147-297 | header by header, the fields passed on, the nonce check, null or an exception |
| `Logins.ClientParseIs` | JavascriptSrc/WebContent/wallet/moaSecurityJS/moaClientCoreAuthLib-v1.0.1.js:74-84 | the client gets the whole body of a reply with a known header, else "" |
| `Logins.KnownHeaders` | JavascriptSrc/WebContent/wallet/moaSecurityJS/moaClientCoreAuthLib-v1.0.1.js:39-51 | a header is known iff its first ten characters are one of eight codes |
| `Logins.UpperAt` | moaCoreAuthLib/src/org/moa/core/auth/server/api/MoaServerCoreAuthLib.java:147-160 | lower-case ASCII letters of a header become capitals, and nothing else changes |
| `LoginLaws.IdIsRead` | JavascriptSrc/WebContent/wallet/moaSecurityJS/moaClientCoreAuthLib-v1.0.1.js:86-89 | the requests about an id alone are read as that id iff it is not empty |
| `LoginLaws.RegistrationIsRead` | JavascriptSrc/WebContent/wallet/moaSecurityJS/moaClientCoreAuthLib-v1.0.1.js:91-100 | the server reads the registration request as it was meant iff the id is not empty |
| `LoginLaws.ManagerRegistrationIsRead` | JavascriptSrc/WebContent/wallet/moaSecurityJS/moaClientCoreAuthLib-v1.0.1.js:96-98 | likewise a manager's, iff neither level nor id is empty |
| `LoginLaws.LoginIsRead` | JavascriptSrc/WebContent/wallet/moaSecurityJS/moaClientCoreAuthLib-v1.0.1.js:106-116 | likewise the login, of a franchise or a manager, passed on iff the nonce is the server's |
| `LoginLaws.ChangeIsRead` | JavascriptSrc/WebContent/wallet/moaSecurityJS/moaClientCoreAuthLib-v1.0.1.js:118-123 | likewise the change of password: the cut drops exactly the second id |
| `LoginLaws.RegisteredIs` | moaCoreAuthLib/src/FranchiseRegistTest.java:139-158 | the record stored of a registration |
| `LoginLaws.SessionIs` | moaCoreAuthLib/src/org/moa/core/auth/server/api/MoaServerCoreAuthLib.java:199-489 | a whole session ends in a login iff the store's record matches the digests |
| `LoginLaws.LoginAfterRegistration` | moaCoreAuthLib/src/org/moa/core/auth/server/api/MoaServerCoreAuthLib.java:199-489 | a new id logs in, after any further registrations, with exactly the passwords of the same authentication text |
| `LoginLaws.LoginIffRegistered` | moaCoreAuthLib/src/org/moa/core/auth/server/api/MoaServerCoreAuthLib.java:199-489 | with exactly the registered password, if cipher and hashes do not collide on the two |
| `LoginLaws.PswHashIs` | JavascriptSrc/WebContent/wallet/moaSecurityJS/moaClientCoreAuthLib-v1.0.1.js:53-67 | the password is encrypted under the first 16 bytes of the hash of the id and hashed |
| `Payments.KiccTransaction.EasypayRun` | MoaSimplePayment/src/com/moaplanet/pg/kicc/KiccTransaction.java:224-289 | callback and compensation behind the gateway's answer; a callback without compensation under another transaction code; neither for a card registration |
| `Payments.KiccTransaction.EasypayRunForRegist` | MoaSimplePayment/src/com/moaplanet/pg/kicc/KiccTransaction.java:21-24 | a card registration neither calls back nor cancels, whatever the gateway answers |
| `Payments.ActionHandler.RequestPayment` | MoaSimplePayment/src/com/moaplanet/pg/ActionHandlerImpl.java:341-408 | memory, effects and reply of both steps, on every path of failure too |
| `Payments.ActionHandler.VerifySecureKey` | MoaSimplePayment/src/com/moaplanet/pg/ActionHandlerImpl.java:480-531 | the entry is consumed whatever the outcome; the bill key, or the code of the failure |
| `Payments.ActionHandler.SendRequestToKICC` | MoaSimplePayment/src/com/moaplanet/pg/ActionHandlerImpl.java:432-446 | one message to the gateway, and success only for an approval without cancel date |
| `Payments.ActionHandler.InitializePassword` | MoaSimplePayment/src/com/moaplanet/pg/ActionHandlerImpl.java:92-155 | memory, effects and reply of a password reset |
| `Payments.ActionHandler.InitializePasswordStep2` | MoaSimplePayment/src/com/moaplanet/pg/ActionHandlerImpl.java:157-193 | the secret key is set iff the entry is a reset's and the nonce is right |
| `Payments.EffectsOf` | MoaSimplePayment/src/com/moaplanet/pg/ActionHandlerImpl.java:382-393 | a second step sends at most once, for its own member and only with an entry, of the kind counted, which it consumes |
| `NonceLaws.SentIff` | MoaSimplePayment/src/com/moaplanet/pg/ActionHandlerImpl.java:341-531 | a payment is sent iff the member has an entry and the request names a card by its secret key, brings the digest of nonce, member and order under it, and an unpaid order; then once, for that card, and the entry is gone |
| `NonceLaws.ReplyIs` | MoaSimplePayment/src/com/moaplanet/pg/ActionHandlerImpl.java:480-531 | the code for a mismatch iff a card is named with another secret key of five characters or more |
| `NonceLaws.NonceStoredIff` | MoaSimplePayment/src/com/moaplanet/pg/ActionHandlerImpl.java:341-380 | the first step stores a new nonce with the order iff it is a card payment of some order |
| `NonceLaws.NonceWorksOnce` | MoaSimplePayment/src/com/moaplanet/pg/ActionHandlerImpl.java:341-531 | whatever the memory was, the second step sends iff it proves the nonce and order of the first, and a third never does |
| `NonceLaws.NothingWithoutNonce` | MoaSimplePayment/src/com/moaplanet/pg/ActionHandlerImpl.java:92-531 | behind every payment sent and every key set in a run stands an earlier request of the member that was given the nonce, and a later one that proves it |
| `NonceLaws.PasswordSetIff` | MoaSimplePayment/src/com/moaplanet/pg/ActionHandlerImpl.java:157-193 | a secret key is set iff the stored entry is a reset's with the nonce given and that key |
| `NonceLaws.ResetSetsKeyAsked` | MoaSimplePayment/src/com/moaplanet/pg/ActionHandlerImpl.java:92-193 | both steps of a reset: the key named in the first is set iff the second brings its nonce |
| `Payments.ConfirmedIff` | MoaSimplePayment/src/com/moaplanet/pg/kicc/KiccTransaction.java:269-286 | a payment is confirmed iff sent, freshly approved and taken by the merchant |
| `Payments.CompensationIff` | MoaSimplePayment/src/com/moaplanet/pg/kicc/KiccTransaction.java:276-286 | it is cancelled exactly once iff sent, approved and refused, and then reported as a failure |
| `Payments.NeitherIff` | MoaSimplePayment/src/com/moaplanet/pg/kicc/KiccTransaction.java:269-286 | a payment sent and approved is neither confirmed nor cancelled iff the callback throws, or the merchant takes it while the gateway gives a cancel date |
| `Payments.RaisedCallbackLeavesPayment` | MoaSimplePayment/src/com/moaplanet/pg/kicc/KiccTransaction.java:269-286 | an approved payment whose callback throws is reported as failed and not cancelled |
| `Payments.OrderSentIff` | MoaSimplePayment/src/com/moaplanet/pg/ActionHandlerImpl.java:387-393 | the order sent is the one the nonce was stored for iff the request names it |
| `Payments.ActionTypeIsIgnored` | MoaSimplePayment/src/com/moaplanet/pg/ActionHandlerImpl.java:480-531 | the kind of the entry makes no difference to a payment |
| `Payments.AnyEntryBacksAnyOrder` | MoaSimplePayment/src/com/moaplanet/pg/ActionHandlerImpl.java:387-393 | an entry of any kind and order confirming a payment of another order |
| `Payments.SendsAreBacked` | MoaSimplePayment/src/com/moaplanet/pg/ActionHandlerImpl.java:341-531 | over any run, sends plus the entry left are at most stores plus the entry before, for every member, over all entries and over each kind apart |
| `Payments.PrefixesAreBacked` | MoaSimplePayment/src/com/moaplanet/pg/ActionHandlerImpl.java:341-531 | from the start, for every prefix of every run, over all entries and over each kind apart |
| `Payments.AttemptsConsume` | MoaSimplePayment/src/com/moaplanet/pg/ActionHandlerImpl.java:480-487 | behind a payment attempt a member sends again only on new nonces |
| `Payments.ResetLeavesNonce` | MoaSimplePayment/src/com/moaplanet/pg/ActionHandlerImpl.java:157-193 | a reset confirmation leaves the memory as it was and works again |

## Left out

- Ciphers, key derivation, hashes, HMAC, ECDSA, Ed25519, RSA key storage and random generation: library code, given as parameters.
- Sockets, JSON, logging, the WebView bridge, Android contexts and I/O errors of files: delivery is a step, a preference store a map, a file a string.
- `latitudeToIndex` and `longitudeToIndex` away from distance zero: floating point; the live calls pass the same coordinate twice. Their value is a parameter, and coordinates are assumed set.
- `Ping`, `Pong`, `FindNode`, `Toss` and the empty exchange classes: stubs or plain forwarding.
- `Node` JSON and `hashCode`: nodes are compared by identity, as the map of the source does.
- `digest` called twice without `reset`, and `intdigest`.
- Ripemd160.RIPEMD160.UpdateAll: takes arrays of at most 2^31 - 1 bytes, as Java arrays are; the count fed in all is not bounded.
- LedgerIds.FreshIff: takes a hash without collisions on the texts of the run, and texts that determine the message.
- Ledgers: scales are not bounded by the range of int.
- Base64.Decode: reads the alphabet of section 4 of RFC 4648 strictly; Android's decoder also skips other characters.
- Payments: requests come one at a time, so the gap between reading and removing an entry is not modelled; card registration, card lists, message texts and the packing of the gateway message are left out.
- Wallets: wallet creation and signing through the WebView, `removeWallet` and the callbacks are left out.
- The JavaScript wallet's `localStorage` and its PBE layer around the private key.
- The manager store and the Java client library: the franchise store with one more field, and the same packets as the JavaScript client.
- Data transfer classes, mappers, connection factories, configuration and pages: no logic.
