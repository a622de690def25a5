# Verified models of Embedded Xinu library and network routines

Four parts of the system are modelled here, each in the form its C code has: arrays changed in
place, cursors moved by loops, and a table whose slots are updated by the functions that share it.
Every method is proved against a specification function or predicate, and the main results are
lemmas about those. Values of 32 bits are kept in two's complement and wrap around explicitly
(`Machine.Signed`, `Machine.Unsigned`); `long` and `int` are the same type, as in `include/limits.h`.

**The quicksort of lib/qsort.c** (`Records.dfy`, `Qsort.dfy`). The sort works on an array of bytes
and on byte offsets; `Records` reads a stretch of those bytes as records of `es` bytes. The
comparison function may answer each call differently: it is a function of the number of the call and
of two records, and the object it is called through counts the calls. A partition pass has four pointers; `Qsort.Reached`
says what every trip of its loops keeps (blocks below, equal to and above the pivot, the records
rearranged only inside the pass, nothing else touched), and the two-way and three-way byte
exchanges are proved with coinciding arguments allowed where the pass can make them coincide. The
results: whatever the calls answer, a permutation, a bound on the nesting of calls and a bound on the
number of comparisons; when on the records of the array they answer by a total preorder, a sorted
array (sections 7.20.5 and 7.20.5.2 of ISO/IEC 9899:1999).

**The ARP cache of net/arp.c** (`ArpSpec.dfy`, `ArpProofs.dfy`, `ArpRfc.dfy`, `Arp.dfy`).
`arp_resolve` blocks in the middle, so its two ends, the receiver and other resolvers interleave.
Each stretch that runs with interrupts off and without blocking is one step of a state machine:
resolve up to the answer or the wait, receive one packet, time out, resume. The state keeps the
table, the locals of the blocked calls with their message flags, and, as a ghost, every packet
accepted so far. Results are about every run from the empty table. The class `Arp.ArpCache` has the
table as an array and is proved to take exactly these steps. `ArpRfc` compares packet reception
with that of RFC 826.

**Numbers as text, both ways** (`Text.dfy`, `Strtol.dfy`, `Prtl.dfy`, `Fdoprnt.dfy`,
`RoundTrip.dfy`, `Reading.dfy`, `Printed.dfy`, `Labels.dfy`,
`DotIp.dfy`): `strtol` and `strtoul`, the format loop behind
`sprintf` with its digit buffers, `dot2ip` and `ip2dot`. The reference for the parsers is the
unbounded value of the maximal digit run (section 7.20.1.4 of ISO/IEC 9899:1999); that for the
printers is the canonical digit sequence `Text.Digits`. `Reading` and `Printed` say in literal terms
what a text made of its parts is read as, and what any directive prints. `Labels.Split` cuts a text at its dots and
is proved inverse to `Labels.Join`.

**Domain names in packets, net/dns.c** (`Labels.dfy`, `DnsSpec.dfy`, `Dns.dfy`, `DnsAnswer.dfy`):
the question builder, the name reader with compression pointers, which it clears in the packet as
it goes, and the two walks of `dns_geta` (sections 3.1 and 4.1 of RFC 1035).

Where the code does not do what its documentation or a standard says, the model follows the code
and a lemma says exactly when they agree:

- A resolver that had to wait may be told a wrong address: between the message and its return, its
  slot can be given away (`ArpProofs.WrongAnswer` is such a run, `ArpProofs.BlockedGetsLatest` and
  `ArpProofs.ResumeExact` say when it cannot happen).
- `arp_in` does not add the sender of an unsolicited reply, as RFC 826 asks (`ArpRfc.Unsolicited`),
  resolves from packets meant for others while an address is asked for (`ArpRfc.Overheard`), replies
  to every opcode but a reply (`ArpRfc.OtherOpcode`), and may lose an entry for a new one
  (`ArpRfc.LostEntry`); `ArpRfc.PacketReception` says exactly when it does as the RFC says.
- `strtol` takes `0x` as a prefix with no digit behind it, and `0b` at all (`Strtol.HexPrefix`,
  `Strtol.BinaryPrefix`, `Strtol.StandardAgreement`, `Strtol.ValueAgreement`).
- `%d` does not print INT_MIN, and fill zeros to the right of a number make it another one
  (`RoundTrip.DecimalRoundTrip`, `RoundTrip.UnsignedRoundTrip`).
- A precision cuts the digits of `%d` (`RoundTrip.CutNumber`, `RoundTrip.DecimalPrecision`).
- `dot2ip` speaks of the form X.X.X.X and accepts one to four segments (`DotIp.OneSegment`,
  `DotIp.Dot2Ip`).
- `dns_bldq` checks a name for 512 bytes, and a packet has room for 500 (`Dns.WrittenFits`).
- A name with an empty label, such as one with a final dot, is neither read back nor skipped as it
  was written, and neither is one with a label of more than 63 bytes, which RFC 1035 does not know
  and `dns_bldq` does not refuse: its length byte, from 64 on, is taken for a pointer, and from 256 on
  is reduced first (`DnsSpec.FinalDot`, `DnsSpec.LongLabel`, `DnsSpec.ChanceSkip`,
  `DnsSpec.ReadBackExact`, `DnsSpec.SkipExact`).
- `dns_getrname` does not check the 256 bytes that `dns_geta` has for a name (`DnsAnswer.OwnerFits`,
  `DnsAnswer.OwnerTooLong`).
- `dns_geta` takes any name that begins with the one asked for (`DnsAnswer.OtherHost`,
  `DnsAnswer.ExactAnswer`), and does not follow an alias (`DnsAnswer.AliasMissed`).

## Model

| member | source | states |
|---|---|---|
| Qsort.Qsexc | lib/qsort.c:109-124 | the es bytes at two places change places and every other byte keeps its value, also when both places are the same |
| Qsort.Qstexc | lib/qsort.c:126-144 | the bytes of k move to i, of i to j and of j to k, all others stay; with j and k the same it is an exchange of i and j |
| Records.ExchangedView | lib/qsort.c:109-124 | on the level of records, such a byte exchange swaps two records, leaves the others, and touches nothing outside the array |
| Records.RotatedView | lib/qsort.c:126-144 | the same for the three-way rotation, with two of the records possibly equal |
| Records.ViewIs | lib/qsort.c:22-27 | record k is the bytes from a + k * es on, and all n end at a + n * es |
| Qsort.Comparison.Ask | lib/qsort.c:52-67 | each call of the comparison function is counted, and call number t is asked as number t |
| Qsort.TakeLeftEqual | lib/qsort.c:52-56 | a record equal to the pivot met from the left joins the middle block and the pass invariant holds with lp one lower |
| Qsort.TakeRightEqual | lib/qsort.c:67-71 | a record equal to the pivot met from the right joins the middle block; the record held at i stays where it is |
| Qsort.TakeRightBelow | lib/qsort.c:74-79 | with nothing waiting on the left the middle block moves up by one and the pass invariant holds |
| Qsort.TakeBoth | lib/qsort.c:80-83 | a record above and one below the pivot change places and both are classified |
| Qsort.TakeLeftAbove | lib/qsort.c:104-105 | with nothing waiting on the right the middle block moves down by one and the pass invariant holds |
| Qsort.ScanRight | lib/qsort.c:64-87 | the region of the label loop keeps the pass invariant, ends with a swap or with j at hp, and calls the comparator exactly once for each record it classifies |
| Qsort.Partition | lib/qsort.c:44-106 | a pass ends with its pointers met and its invariant kept, has rearranged only its own records, and has called the comparator exactly once less than it has records; each trip of either loop reduces (lp - i) + (j - hp) |
| Qsort.PassEnds | lib/qsort.c:44-106 | when the pointers have met there are exactly the records below the one that was in the middle, those equal to it, and those above it |
| Qsort.PartitionSettles | lib/qsort.c:44-102 | after a pass every pair of records is in order unless both lie on the same side |
| Qsort.LeftSettled | lib/qsort.c:98-99 | sorting the left side leaves only pairs inside the right side open |
| Qsort.RightSettled | lib/qsort.c:93-94 | sorting the right side leaves only pairs inside the left side open |
| Qsort.Distances | lib/qsort.c:40-43 | the pointer distances the code compares say how many records there are: at most one, and which side has more |
| Qsort.Log2Is | lib/qsort.c:89-102 | the logarithm is the exponent of the greatest power of two that does not exceed the number |
| Qsort.DepthOfSide | lib/qsort.c:91-100 | the logarithm for a side of at most half the other records is smaller by at least one |
| Qsort.PairsSplit | lib/qsort.c:89-102 | the pairs inside the two sides and those with the pivot are no more than all pairs |
| Qsort.Qs1 | lib/qsort.c:29-107 | sorts its part and touches nothing else; every recursive call has a smaller logarithm of its number of records, which its decreases clause checks, so that at most floor(log2(n + 1)) + 1 calls are active at once; at most as many comparator calls as pairs are made, whatever each call answers |
| Qsort.Qsort | lib/qsort.c:22-27 | for every n, every es >= 1 and whatever each comparator call answers: same multiset of records, nothing outside touched, depth at most floor(log2(n + 1)) + 1, at most n(n - 1)/2 comparisons; sorted whenever on the records of the array all calls answer by one total preorder |
| ArpSpec.FindFrom | net/arp.c:56-64 | the search stops at the first slot in use that holds the address, and fails only if no slot in use does |
| ArpSpec.AllocSlot | net/arp.c:298-327 | the first free slot or, only when none is free, the first resolved one; never a pending one, and none exactly when all are pending |
| Arp.ArpCache.constructor | net/arp.c:11-18 | the table starts with every slot free, slot 0 too although the loop begins at 1 |
| Arp.ArpCache.Search | net/arp.c:56-64 | the loop finds the slot of the specification, and ends at ARP_SIZ exactly when there is none |
| Arp.ArpCache.ArpAlloc | net/arp.c:298-327 | the slot it returns is the one specified and has been zeroed; no other slot changes; SYSERR changes nothing |
| Arp.ArpCache.ArpResolve | net/arp.c:24-127 | takes the resolving step of the state machine, keeps its invariant, and sends a request, with each field of it stated, exactly when it then blocks |
| Arp.ArpCache.ArpIn | net/arp.c:158-292 | takes the receiving step, keeps the invariant, and sends the reply of that step, with each field of it stated |
| Arp.ArpCache.Send | net/arp.c:217 | sets the message flag of the process if it waits, and nothing else |
| Arp.ArpCache.ArpTimeout | net/arp.c:125-144 | takes the timeout step and sends the same request again exactly when it blocks again |
| Arp.ArpCache.ArpResume | net/arp.c:132-150 | takes the resuming step: the address copied is what the slot holds by then |
| ArpProofs.ResolveKeepsInv | net/arp.c:56-97 | looking up and allocating keeps addresses unique, resolved slots current, and pending slots matched with waiting processes |
| ArpProofs.MergeKeepsInv | net/arp.c:206-219 | so does merging a sender into its slot |
| ArpProofs.InsertKeepsInv | net/arp.c:243-255 | so does putting a new sender into a free or evicted slot |
| ArpProofs.ReceiveKeepsInv | net/arp.c:175-255 | so does receiving any packet |
| ArpProofs.ExpireKeepsInv | net/arp.c:125-144 | so does a timeout |
| ArpProofs.ResumeKeepsInv | net/arp.c:146-150 | so does a return |
| ArpProofs.EveryRun | net/arp.c:24-327 | in every state of every interleaved run: no two slots in use with the same address; each resolved slot holds the address of the latest accepted packet from its host; pending slots and processes waiting without a message correspond one to one |
| ArpProofs.PacketDropped | net/arp.c:175-178 | a packet with another hardware type than 1 or another protocol type than 0x0800 changes nothing and is not replied to |
| ArpProofs.KnownSender | net/arp.c:189-238 | all that any other packet does when its sender is in a slot: that slot resolved with the new address, the waiting process notified, and a reply exactly to what is not a reply and is for this host |
| ArpProofs.UnknownSender | net/arp.c:227-255 | all that it does otherwise: the first slot to be taken is given to the sender, and a reply sent, exactly under those conditions and when not all slots are pending |
| ArpProofs.ResolveKnown | net/arp.c:38-83 | for a broadcast address or one in a slot the state stays as it is, and the answer is stated |
| ArpProofs.ResolveUnknown | net/arp.c:88-112 | for any other address the first slot to be taken becomes pending, with the request kept in every field, or SYSERR if all are pending |
| ArpProofs.WaitEnds | net/arp.c:124-150 | all that a timeout and a return change, with two timeouts survived and the third not |
| ArpProofs.SlotAfter | net/arp.c:88-97 | what one step does to one slot, for all steps and slots: a pending slot is never allocated again and leaves that state only by its sender or by the last timeout of its own process |
| ArpProofs.ResolveAnswers | net/arp.c:38-92 | an answer without waiting is the broadcast address or the latest address heard; SYSERR exactly when the address is being asked for already or all slots are pending |
| ArpProofs.Notified | net/arp.c:214-218 | a process gets its message only when its slot becomes resolved for its next hop |
| ArpProofs.StaysAnswered | net/arp.c:124-150 | from then on every step that does not allocate that slot leaves it resolved for that address |
| ArpProofs.BlockedGetsLatest | net/arp.c:124-150 | over every run without such an allocation the process that resumes is told the latest address heard from its next hop at that time |
| ArpProofs.ResumeExact | net/arp.c:146-150 | when the latest address of its next hop is not zero and not the latest of another host, the resuming process is told it if and only if its slot still is resolved for its next hop |
| ArpProofs.WrongAnswer | net/arp.c:298-327 | a run from the empty cache after which a process that has been answered is told the zero address |
| ArpProofs.TriesCounted | net/arp.c:124-138 | over every run, the tries of a blocked process are its timeouts, and its request, next hop and slot stay the same |
| ArpProofs.GivesUp | net/arp.c:124-144 | a blocked process has asked with the same stated request each time, and gives up, freeing its slot, exactly at its third timeout, whatever other steps come in between |
| ArpProofs.RequestAnswered | net/arp.c:101-112 | a request asks everyone, and the host asked replies to the asker with its own addresses exactly when it has or finds a slot for the asker, and then knows the asker |
| ArpProofs.ReplyAnswers | net/arp.c:206-219 | such a reply resolves the slot of a process that still is blocked on the replier, and gives it its message |
| ArpProofs.ReplyResolves | net/arp.c:124-150 | from the block over any run to the reply and over any run to the return: the process is told the replier's hardware address, unless its slot is taken or another address is heard from the replier |
| ArpRfc.PacketReception | net/arp.c:175-288 | the table after a packet, and whether there is a reply, are those of RFC 826, Packet Reception, if and only if a stated condition on packet and table holds |
| ArpRfc.Unsolicited | net/arp.c:221-227 | a reply for this host that nobody has asked for leaves the empty table empty, where the RFC adds its sender |
| ArpRfc.Overheard | net/arp.c:206-219 | a reachable state and an answer for another host that resolves its sender, where the RFC does not look at it |
| ArpRfc.OtherOpcode | net/arp.c:223-238 | every opcode that is neither request nor reply is replied to, where the RFC replies to requests only |
| ArpRfc.LostEntry | net/arp.c:243-255 | a reachable state and a request that makes the cache forget a third host, where the RFC keeps it |
| Strtol.Cutoff | lib/strtol.c:167-180 | the test with cutoff and cutlim holds if and only if the next digit takes the value over the limit |
| Strtol.SkipSpace | lib/strtol.c:128-130 | stops behind the first character that is not white space |
| Strtol.ReadPrefix | lib/strtol.c:136-148 | effective base and start of the digits for base 0 and each given base |
| Strtol.ReadDigit | lib/strtol.c:171-176 | digits and letters of either case get their value as a digit, everything else none |
| Strtol.Accumulate | lib/strtol.c:168-186 | stops at the end of the maximal digit run; the accumulator never wraps around and is the unbounded value as long as that is within the limit; any tells no digits, within, and over |
| Strtol.Strtol | lib/strtol.c:115-195 | the value of the scan as ParsedLong; the end pointer just behind the run, or at the start without digits |
| Strtol.LongResult | lib/strtol.c:187-194 | that value is the signed unbounded value of the run if it lies from -2^31 to 2^31 - 1, -2^31 if it is below, and 2^31 - 1 if it is above |
| Strtol.Strtoul | lib/strtol.c:203-263 | the value of the scan as ParsedUnsigned, and the same end pointer |
| Strtol.UnsignedResult | lib/strtol.c:255-262 | that value is 2^32 - 1 beyond the range, the unbounded value within it, and 2^32 less that value behind a minus sign |
| Reading.ScansParts | lib/strtol.c:128-186 | white space, a sign or none, a prefix that goes with the base argument, a numeral in any base from 2 to 36, and anything that is not a digit behind it: exactly the numeral is read, in its base |
| Reading.ReadsParts | lib/strtol.c:128-194 | the results of strtol and strtoul for such a text, in numbers, and the end pointer just behind the numeral |
| Text.ClassesByCode | lib/ctype_.c:11-31 | the character classes by the codes of the characters |
| Text.DigitValues | lib/strtol.c:171-176 | the value of each digit and letter |
| Strtol.StandardAgreement | lib/strtol.c:136-148 | value and end pointer are those of ISO/IEC 9899:1999, section 7.20.1.4, if and only if the text has no 0b prefix and no 0x without a hexadecimal digit behind it |
| Strtol.OtherSubject | lib/strtol.c:136-148 | after such a prefix the end pointers differ, whatever follows |
| Strtol.ValueAgreement | lib/strtol.c:136-148 | the value alone is that of the standard if and only if there is no 0b prefix with a digit 1 behind it |
| Strtol.HexPrefix | lib/strtol.c:136-140 | from "0x" nothing is read, where the standard reads the 0 |
| Strtol.BinaryPrefix | lib/strtol.c:141-146 | "0b1" in base 2 is 1, where the standard reads 0 |
| Prtl.CopyOut | lib/fdoprnt.c:266-270 | drops leading zeros but keeps one digit, reverses the rest, and ends with a NUL |
| Prtl.Stripped | lib/fdoprnt.c:290-294 | the buffer without its leading zeros is the canonical digit sequence of the number |
| Prtl.Prtl10 | lib/fdoprnt.c:255-271 | the digits of the magnitude; for a number below zero they come out as characters below the digit zero |
| Prtl.DecTextNumeral | lib/fdoprnt.c:255-271 | for every number not below zero that text is its decimal numeral |
| Prtl.Hexadecimal | lib/fdoprnt.c:308-312 | eight digits taken by arithmetic shifts are those of the unsigned value |
| Text.DigitChars | lib/fdoprnt.c:310-333 | the sixteen digits of either case |
| Prtl.Prtl16 | lib/fdoprnt.c:302-341 | the canonical hexadecimal numeral of the unsigned value, in either case of letters |
| Prtl.Octal | lib/fdoprnt.c:284-289 | eleven octal digits taken by arithmetic shifts are those of the unsigned value but for the two sign bits copied into the highest |
| Prtl.MaskDigit | lib/fdoprnt.c:289 | masking a digit character with '3' masks the digit with 3 |
| Prtl.Prtl8 | lib/fdoprnt.c:278-295 | the canonical octal numeral of the unsigned value |
| Prtl.ReduceUnsigned | lib/fdoprnt.c:150-154 | subtracting 10^9 with wrap-around ends after at most three times, with a number of ten digits if it happens at all |
| Prtl.TopDigit | lib/fdoprnt.c:150-156 | adding c to the first of w + 1 decimal digits adds c * 10^w, without a carry as long as the length is the same |
| Prtl.FirstDigit | lib/fdoprnt.c:155-156 | adding the count to the first character stays within '0' to '9' and gives the numeral of the unsigned value |
| Prtl.PrintUnsigned | lib/fdoprnt.c:142-158 | %u gives the exact decimal numeral of every unsigned value |
| Fdoprnt.ReadFlags | lib/fdoprnt.c:63-102 | flags, fill, width and precision, written out or taken from the arguments |
| Fdoprnt.ConvertArg | lib/fdoprnt.c:104-187 | sign, text, and which of fill and precision are heeded, for each conversion |
| Fdoprnt.Measure | lib/fdoprnt.c:192-221 | how many characters of text and how many of fill go out, with widths out of 0 to 80 ignored |
| Fdoprnt.PutField | lib/fdoprnt.c:192-245 | exactly the field of sign, fill and text is put at the cursor |
| Fdoprnt.FieldLength | lib/fdoprnt.c:203-245 | the field is the longer of the width and of what is shown of the text with its sign |
| Fdoprnt.Fdoprnt | lib/fdoprnt.c:28-248 | puts the text the format and arguments specify at the cursor, and leaves the cursor behind it and everything else as it was |
| Fdoprnt.Cursor.Put | lib/sprintf.c:36-42 | one more character behind what has been put |
| Fdoprnt.Sprintf | lib/sprintf.c:19-31 | that text and a NUL stand at the destination, everything else as before |
| Text.NoLeadingZero | lib/fdoprnt.c:266-268 | the canonical digits begin with zero only for zero |
| Text.NumeralValue | lib/strtol.c:170-186 | wherever the numeral of a number stands in a text, its digits have that number as their value |
| RoundTrip.FieldShape | lib/fdoprnt.c:222-245 | where blanks, sign, zeros, digits and trailing fill of a numeric field lie |
| RoundTrip.DFieldLength | lib/fdoprnt.c:203-245 | the output of %d is as long as the width or as digits and sign, whichever is more |
| RoundTrip.ParseIntMin | lib/fdoprnt.c:131-140 | what %d prints for INT_MIN is read as 0 for every width and flag |
| RoundTrip.ParseNumeral | lib/strtol.c:115-195 | a numeral in its field, in base 8, 10 or 16, is read with its sign and its value |
| RoundTrip.ParseTrailing | lib/strtol.c:115-195 | with fill zeros behind it, at least twice the number is read, and 0 for 0 |
| RoundTrip.DecimalRoundTrip | lib/fdoprnt.c:131-140 | for every int, width and flag, strtol in base 10 gives back what %d printed if and only if the number is not INT_MIN and has no fill zeros behind it, or is 0 or INT_MAX |
| RoundTrip.UnsignedRoundTrip | lib/strtol.c:203-263 | what %u, %o, %x or %X printed, strtoul in the base of the conversion gives back, for every value, width and flag, if and only if it has no fill zeros behind it, or is 0 or UINT_MAX |
| RoundTrip.Canonical | lib/fdoprnt.c:142-179 | no leading zero, and "0" for zero |
| RoundTrip.ShorterField | lib/fdoprnt.c:203-245 | in every field, a text and a proper beginning of it come out the same if and only if the rest are zeros and the field fills them in again on the right |
| RoundTrip.DecimalPrecision | lib/fdoprnt.c:204-212 | for every int, width and flag, %d prints the same with a precision as without if and only if the precision is out of range, or no less than the number of digits, or cuts off only zeros that come back as fill |
| RoundTrip.CutNumber | lib/fdoprnt.c:204-212 | "%.1d" prints 12 as 1 |
| Printed.DirectiveRead | lib/fdoprnt.c:63-102 | a directive, with either flag, a width and a precision that are absent, written out or a star, is read as what it says wherever it stands in a format |
| Printed.FieldIsOutput | lib/fdoprnt.c:112-245 | for each of the conversions c, s, d, u, o, x and X, every argument, flag, width and precision: the field is the literal text, with %s and %c in blanks whatever the flag, %s cut to its precision, and "(null)" for a null pointer |
| Printed.DirectivePrinted | lib/fdoprnt.c:46-248 | any such directive prints exactly that, and the format goes on behind it with the remaining arguments |
| Printed.PlainPrinted | lib/fdoprnt.c:48-62 | other characters are put as they are, two percent signs as one, and a last one as itself |
| Printed.IntMinText | lib/fdoprnt.c:131-140 | the ten characters that %d prints behind the minus sign for INT_MIN |
| Printed.TwoOfThree | lib/fdoprnt.c:204-212 | "%.2s" prints abc as ab |
| Printed.Samples | lib/fdoprnt.c:160-179 | 255 as FF and ff, and 8 as 10 in base 8 |
| Printed.SignBeforeZeros | lib/fdoprnt.c:222-232 | "%0*d" prints -42 in five places as -0042 |
| DotIp.ReadSegment | net/dot2ip.c:26-43 | accepts exactly a segment of one to three digits, up to its dot or NUL, and gives its value |
| DotIp.Dot2Ip | net/dot2ip.c:9-59 | succeeds if and only if the text is one to four segments of one to three digits, each at most 255, between dots; the result is their fold in base 256 |
| DotIp.AcceptableIs | net/dot2ip.c:24-53 | what is accepted, by the lengths and characters of the segments |
| DotIp.SegmentIs | net/dot2ip.c:26-42 | the value of a segment of one, two and three digits |
| DotIp.FoldIs | net/dot2ip.c:48 | the result for one, two, three and four segments |
| DotIp.Rejected | net/dot2ip.c:26-56 | an empty segment, an empty text, a letter, 256 and a fifth segment are rejected |
| DotIp.OneSegment | net/dot2ip.c:50-57 | "10" is accepted, for the address 0.0.0.10 |
| DotIp.FormatIsDotted | net/ip2dot.c:17-19 | the four %d of the format print the decimal numerals of the four bytes, with dots between them |
| DotIp.Ip2Dot | net/ip2dot.c:9-22 | the dotted text of the address and a NUL stand at the destination, everything else as before |
| DotIp.OneToFour | net/ip2dot.c:17-19 | 0x01020304 is written as 1.2.3.4 |
| DotIp.DottedRoundTrip | net/dot2ip.c:24-58 | for all 2^32 addresses dot2ip accepts what ip2dot writes and gives the address back; the text has 7 to 15 characters |
| Labels.JoinSplit | net/dns.c:125-141 | the parts of a text with dots between them are the text again |
| Labels.SplitHasNoDots | net/dns.c:130-139 | no part has a dot in it |
| Labels.SplitJoin | net/dot2ip.c:24-53 | parts without dots, joined with dots, are split into the same parts |
| DnsSpec.EncodedLength | net/dns.c:120-141 | the labels with their length bytes take one byte more than the name |
| Dns.BldQ | net/dns.c:108-154 | for every name, writes its labels with their lengths modulo 256, a NUL, type and class (with labels of 1 to 63 bytes, the question of RFC 1035, section 4.1.2), returns the length strlen + 6, and touches nothing else; from 512 characters on it writes the labels of the first 511 and returns SYSERR |
| DnsSpec.QuestionOfTwo | net/dns.c:120-153 | the nine bytes of the question for a.b |
| Dns.WrittenFits | net/dns.c:127-129 | what it writes stays within the 500 bytes of a packet if and only if the name has at most 494 characters |
| Dns.Getrname | net/dns.c:227-268 | writes the name and a NUL to the destination and nothing else there, returns the bytes the name takes in place, and changes in the packet only the pointers it went through |
| Dns.ReadingPointer | net/dns.c:250-260 | clearing the highest bits of a pointer does not change what is read through it |
| DnsSpec.NameEnds | net/dns.c:239-267 | whatever can be read as a name ends in place, within its limit |
| DnsSpec.NameLocal | net/dns.c:239-267 | a name depends only on the bytes before its limit |
| DnsSpec.EncodedNameRead | net/dns.c:227-267 | what dns_bldq wrote for a name of non-empty labels of at most 63 bytes is read as the name and a dot, over strlen + 2 bytes, with the packet unchanged |
| DnsSpec.PointerIs | net/dns.c:252-256 | the offset in a pointer, from its two bytes without the two highest bits, whatever these are |
| DnsAnswer.NamePointer | net/dns.c:250-262 | a byte above 63 goes on with the name at the offset, over two bytes |
| DnsSpec.PointerRead | net/dns.c:250-262 | through a pointer back to it the same name is read, over 2 bytes, and only the pointer loses its highest bits |
| DnsSpec.ReadBackExact | net/dns.c:227-267 | of all names, exactly those with labels of 1 to 63 bytes are read back from what dns_bldq wrote |
| DnsSpec.ReadLabelsShort | net/dns.c:239-249 | whatever dns_getrname can read from a packet has no label of more than 63 bytes |
| DnsSpec.SkipExact | net/dns.c:174-195 | of the names with labels of at most 255 bytes, the skip in dns_geta passes exactly those with labels of 1 to 63 bytes as a whole |
| DnsSpec.LongLabel | net/dns.c:242-262 | a label of 64 letters: nothing can be read, and the skip stops behind two bytes |
| DnsSpec.ChanceSkip | net/dns.c:130-133 | a label of 257 bytes that is skipped as a whole by chance |
| DnsSpec.NameSpared | net/dns.c:239-267 | a name, with all that it points to, is the same in every packet that differs only at bytes it does not use |
| DnsSpec.ClearedBut | net/dns.c:252-253 | reading a name clears the two highest bits of exactly the pointers it follows |
| DnsSpec.FollowedWithin | net/dns.c:250-262 | the pointers a name follows all stand before its end in place |
| DnsSpec.FinalDot | net/dns.c:137-141 | the name a. is read without the dot that every other name gets, and one of its bytes is left over |
| DnsAnswer.SkipQuestions | net/dns.c:174-195 | ends where the questions of the packet end |
| DnsAnswer.QuestionSkipped | net/dns.c:174-195 | the skip over a question of dns_bldq advances by exactly the length dns_bldq returned |
| DnsAnswer.QuestionsSkipped | net/dns.c:174-195 | and the skip over any number of them by exactly their lengths |
| DnsAnswer.QuestionReadBack | net/dns.c:120-153 | wherever that question stands in a packet, its name is read back and the skip arrives at what follows it |
| DnsAnswer.SkipIsConsumed | net/dns.c:174-195 | for every name that can be read, the separate walk of the skip advances as far as dns_getrname does, and the four bytes of type and class |
| DnsAnswer.Matches | lib/strncmp.c:16-26 | strncmp over the length of the name asked for is 0 if and only if that is a prefix of the name read |
| DnsAnswer.Geta | net/dns.c:160-221 | the address of the first answer whose type and name are taken, in the packet as the earlier names have left it, and none if there is none |
| DnsAnswer.StaysSound | net/dns.c:252-253 | clearing bytes that no later name uses leaves all later names as they are |
| DnsAnswer.RecordPassed | net/dns.c:206-217 | the walk passes one record to the next, and leaves the rest of the packet as records with sound pointers |
| DnsAnswer.AnswersFound | net/dns.c:200-218 | over every list of records, with owners written out, as labels and a pointer, or as pointers to any such name before them, the walk arrives at each record and takes the first that matches, as long as no owner needs a pointer that an earlier one has followed |
| DnsAnswer.ResponseRead | net/dns.c:160-221 | in a response to a question of dns_bldq, dns_geta finds the data of the first address record whose owner begins with the name asked for |
| DnsAnswer.QuestionPointers | net/dns.c:250-262 | owners written out and pointers to the name in the question always are such owners |
| DnsAnswer.OwnerFits | net/dns.c:202-205 | a name written out fits the buffer of dns_geta, with its dot and the NUL, if and only if it has at most 254 characters |
| DnsAnswer.OwnerTooLong | net/dns.c:202-205 | a packet of 343 bytes whose first owner can be read and does not fit |
| DnsAnswer.ExactAnswer | net/dns.c:160-221 | what dns_geta finds in a response is the data of a record of the host asked for if and only if no address record before the first such one merely begins with the name; without such a record it finds nothing if and only if no address record begins with the name |
| DnsAnswer.OtherHost | net/dns.c:209-213 | a packet that answers a query for ab with the address of abc, which dns_geta gives |
| DnsAnswer.AliasMissed | net/dns.c:200-218 | a packet that says a is an alias of b.a and gives the address of b.a, with compressed names: dns_geta finds nothing |

## Left out

- `lib/qsort.c`: the static `qscmp` and `qses` are parameters, and the 32-bit product n * es is taken
  not to overflow. The region of the label `loop` is a method of its own.
- `net/arp.c`: `write`, `freebuf`, `kprintf`, the conversions of byte order, and packets cut short
  are not part of the model; `NetData` is a parameter of each step. A waiting process gets messages
  only from the send in `arp_in`, `recvtime` returns TIMEOUT only without a message and never
  SYSERR, and a process is not killed while it waits.
- ArpProofs.BlockedGetsLatest: requires that nothing takes the slot in between, because the property
  is false otherwise (`ArpProofs.WrongAnswer`).
- ArpProofs.ResumeExact: requires that the latest address of the next hop is not zero and not that of
  another host too, because the slot could otherwise hold the right address by chance.
- `lib/strtol.c`: characters beyond ASCII, a null end pointer, and bases other than 0 and 2 to 36.
  What `strtol` and `strtoul` have word for word in common is modelled once, and so are the two
  hexadecimal printers and the common end of the digit printers of `lib/fdoprnt.c`.
- Fdoprnt.ConvertArg: does not model `%b`, whose 32 digits overrun the buffer of 20, and unknown
  conversions, after which the code prints what the buffer happens to hold.
- Fdoprnt.Fdoprnt: has no value for those, nor for arguments that are missing or of the wrong kind.
- `lib/fdoprnt.c`: output functions other than that of `sprintf`, and the near copy in
  `lib/doprnt.c`. Masks and arithmetic shifts of whole numbers are written as remainder and quotient.
- Dns.Getrname: requires a name that ends inside the packet, each of whose pointers leads to a name
  wholly before the one it is in; pointers in a circle or forward have no result to state. Bytes
  are unsigned, also in the pointers, which the code reads through `char`.
- DnsAnswer.Geta: requires a response whose names and records end inside the packet, whose names fit
  the 256 bytes kept for one, and in which no pointer is followed twice, having lost its highest
  bits the first time. No address is `None`; in the code it is SYSERR, which is also the address
  255.255.255.255. The address is given as the four bytes in the packet.
- DnsAnswer.ResponseRead: requires that no owner needs a pointer that an earlier one has followed, and
  that every owner fits its buffer; what the code then reads is not a name any more.
- DnsSpec.SkipExact: requires labels of at most 255 bytes, because a longer one can be skipped by
  chance (`DnsSpec.ChanceSkip`).
- `dns_qa`, which sends and receives the packets.
- `net/icmp.c`, `net/dhcp.c`, `lib/doscan.c` and the remaining stack and library.
