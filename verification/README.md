# libipsec and libradius of strongSwan, modelled and proved

A model of two parts of strongSwan 5.5.2 and proofs of what they are for.

* **libipsec**, the ESP data path in user space: the SA manager as a concurrent protocol, the
  anti-replay window, ESP and IP encoding, the policy database, SA lifetimes, and the processor that
  ties these together.
* **The message code of libradius**: attribute lists, the chained cipher, signing and verifying in
  place, and the keys found in a response.

`dafny verify dfyconfig.toml` checks everything.

## How it is organised

| module | source | what is in it |
|---|---|---|
| `Base` | | bytes, integers in network order, C's unsigned subtraction |
| `SaManager` | `ipsec_sa_mgr.c` | the protocol as a transition system: one action per stretch of code between two points where the mutex is released |
| `SaManagerSafety`, `SaManagerProgress` | `ipsec_sa_mgr.c` | what holds in every reachable state; why no wake-up is lost |
| `SaManagerDrain`, `SaManagerHandOut` | `ipsec_sa_mgr.c` | why a deletion gets through; who obtains an SA, also after it expired |
| `SaManagerEffects` | `ipsec_sa_mgr.c` | what lookups find, and what each operation changes in the list and in an SA |
| `SaManagerObject` | `ipsec_sa_mgr.c` | the list of entries with fields updated in place, each method proved to take the step of the transition system |
| `EspContext` | `esp_context.c` | the circular bitmap, proved to stand for a set of numbers |
| `EspPacket`, `IpPacket`, `Checksum` | `esp_packet.c`, `ip_packet.c`, `chunk.c` | formats, padding, checksums, round trips |
| `IpsecPolicy`, `PolicyMgr` | `ipsec_policy.c`, `ipsec_policy_mgr.c` | matching, the sorted list |
| `IpsecSa` | `ipsec_sa.c`, `ipsec_sa_mgr.c` | expiry by usage and by the timer |
| `Processor` | `ipsec_processor.c` | the inbound and the outbound job |
| `RadiusCrypto`, `RadiusMessage`, `RadiusSigning`, `RadiusMessageObject` | `radius_message.c` | cipher, enumerators, messages as values, the message object |
| `RadiusSocket` | `radius_socket.c` | key decryption |

Where the source changes things in place, the model has a class or an array method whose contract ties
the new state to a function of the old one; the lemmas are about these functions.

The transition system of the SA manager allows any number of threads, condition variables that wake any
one sleeping thread per signal, woken threads that compete for the mutex with all others, and wake-ups
for no reason. Entries are numbered as they are created, and numbers are not reused. A thread checks in
only what it holds.

An AEAD is a pair of functions that may fail, where decryption undoes encryption for equal associated
data and IV. MD5 and HMAC are functions; the hasher accumulates data between calls, and every call of
hasher or signer may fail unless it is declared reliable. Random numbers and the time are parameters.
A processor job is given the list of SAs and looks for the one it wants itself; whether the
SA manager lets it have that SA, or is about to delete it, is a parameter.

## Where the code does not do what it was meant to

Each of these is a lemma, and the exact condition under which the code is right is proved.

* The window size has to divide 2^32; being a multiple of 8, as a comment says, is not enough
  (`WrappedIndexIsRightIff`, `MultipleOfEightIsNotEnough`). The size used, 128, is right.
* An IPv4 packet whose header declares less than 20 bytes is accepted, but cut inside its header, and
  cannot be parsed again by the receiver (`ParseIsIdempotentIff`, `RoundTripIff`, `TunnelDelivers`).
* IPv6 packets cannot be built (`BuildingIPv6Fails`); IPv4 packets over 65535 bytes are built with a
  length that wrapped around (`UdpRoundTrip`, `OversizedIsCut`).
* Padding is right only for certain pairs of block size and IV size (`PaddingWorksIff`).
* The timer works in 32 bits, limits are given in 64 (`TimelineIsConfiguredIff`,
  `SpanOfExactMultipleSkipsRekeying`).
* A thread that was already waiting can obtain an SA that a usage limit has expired meanwhile: exactly
  then, and nobody else can (`ExpiredIsObtainableIff`, `OnlyEarlierWaitersObtainExpired`,
  `WaiterMayObtainExpired`).
* `update_sa` does not check whether there is an SA with the new addresses already (`UpdateMayDuplicate`,
  `UpdateKeepsDifferentIff`).
* A password of more than 240 bytes is cut when it is added, and cannot be decrypted (`PasswordArrivesIff`).
* A message that carries an EAP-Message does not verify if it was signed without a
  Message-Authenticator (`SignedVerifies`); `sign` does not insist on one.

## Model

| member | source | states |
|---|---|---|
| `SaManagerSafety.ReachableStates` | strongSwan/5.5.2/src/libipsec/ipsec_sa_mgr.c:160-289 | in every state that any run of any number of threads reaches: at most one holder and one remover per entry; `locked`, `awaits_deletion` and `waiting_threads` say exactly whether there is a holder, a remover and how many threads wait; no thread refers to a destroyed entry; the position a removing or flushing thread will continue from is still in the list; an entry being destroyed concerns nobody else |
| `SaManagerSafety.StepIsSafe` | strongSwan/5.5.2/src/libipsec/ipsec_sa_mgr.c:450-657 | each of the twelve kinds of step (add, look up, wake up, check in, delete, expire, flush, ...) keeps the invariant behind that |
| `SaManagerSafety.RunsAreSafe` | strongSwan/5.5.2/src/libipsec/ipsec_sa_mgr.c:450-657 | so does every run, from any safe state |
| `SaManagerSafety.WaitForEntryIsSafe` | strongSwan/5.5.2/src/libipsec/ipsec_sa_mgr.c:185-202 | a stretch of `wait_for_entry`, and what its caller does with the entry, keeps the invariant |
| `SaManagerSafety.ContinueRemovalIsSafe` | strongSwan/5.5.2/src/libipsec/ipsec_sa_mgr.c:160-179 | a stretch of `wait_remove_entry`, from either of its loops to the next wait or to the removal, keeps the invariant |
| `SaManagerSafety.FinishRemovalIsSafe` | strongSwan/5.5.2/src/libipsec/ipsec_sa_mgr.c:208-225 | taking an entry out of the list keeps it, and leaves every other thread's position valid |
| `SaManagerSafety.FlushIsComplete` | strongSwan/5.5.2/src/libipsec/ipsec_sa_mgr.c:208-225 | when `flush_entries` ends, each SA that was installed before it began is gone or is being removed by another thread, although it released the mutex in between |
| `SaManagerProgress.NoRunLosesAWakeup` | strongSwan/5.5.2/src/libipsec/ipsec_sa_mgr.c:168-200 | in every state of a run, a thread that sleeps on an entry has the entry locked by somebody or another thread awake on it, although `checkin` signals only one |
| `SaManagerProgress.StepLosesNone` | strongSwan/5.5.2/src/libipsec/ipsec_sa_mgr.c:564-648 | each kind of step keeps that |
| `SaManagerDrain.DrainStep` | strongSwan/5.5.2/src/libipsec/ipsec_sa_mgr.c:168-200 | once deletion is requested and nobody holds the entry, any step whatever either removes it, or makes the backlog of waiters and wake-ups smaller if it is a thread coming back to the entry, and otherwise adds no waiter |
| `SaManagerDrain.NextResume` | strongSwan/5.5.2/src/libipsec/ipsec_sa_mgr.c:168-200 | in such a state, if the mutex is free, some thread is ready to take such a step |
| `SaManagerDrain.WaitersOnlyLeave` | strongSwan/5.5.2/src/libipsec/ipsec_sa_mgr.c:185-202 | over every run, whatever all threads do: as long as the entry is listed, the threads still waiting for it and the returns of waiting threads add up to those that waited at the start; nobody joins |
| `SaManagerDrain.DrainingIsBounded` | strongSwan/5.5.2/src/libipsec/ipsec_sa_mgr.c:168-200 | over every run: threads come back to the entry no more often than the backlog at the start, plus the times somebody else wakes the remover, plus one |
| `SaManagerDrain.RemoverProceeds` | strongSwan/5.5.2/src/libipsec/ipsec_sa_mgr.c:173-178 | a remover that comes back when nobody waits removes the entry; otherwise it wakes everybody |
| `SaManagerDrain.DeletionGetsThrough` | strongSwan/5.5.2/src/libipsec/ipsec_sa_mgr.c:160-179 | in every endless run in which each thread woken on the entry gets the mutex at some time, the entry is removed, whatever all other threads do |
| `SaManagerDrain.DeletionCanGetThrough` | strongSwan/5.5.2/src/libipsec/ipsec_sa_mgr.c:160-225 | from every state, also while a thread holds the mutex in `flush_entries`, there is a run that removes it, of at most backlog + 1 steps if the mutex is free |
| `SaManagerDrain.FlusherLetsGo` | strongSwan/5.5.2/src/libipsec/ipsec_sa_mgr.c:208-225 | that thread lets go of the mutex after finitely many turns |
| `SaManagerHandOut.HandedOutOnlyIfFree` | strongSwan/5.5.2/src/libipsec/ipsec_sa_mgr.c:598-630 | a thread becomes the holder only of an entry that was unlocked and not awaiting deletion, and, if it did not have to wait, not hard-expired |
| `SaManagerHandOut.ResumeObtainsIff` | strongSwan/5.5.2/src/libipsec/ipsec_sa_mgr.c:185-202 | a thread that comes back from its wait becomes the holder exactly if it wants to check the SA out and the entry is neither locked nor awaiting deletion; expiry plays no part |
| `SaManagerHandOut.OnlyEarlierWaitersObtainExpired` | strongSwan/5.5.2/src/libipsec/ipsec_sa_mgr.c:598-630 | over every run from a state in which an SA has hard-expired: whoever holds it at the end held it at the start, or was already waiting then to check it out and no deletion had been requested; no lookup that starts later obtains it |
| `SaManagerHandOut.ExpiredIsObtainableIff` | strongSwan/5.5.2/src/libipsec/ipsec_sa_mgr.c:622-627 | so after an expiry by usage another thread can still obtain the SA in some run exactly if it is already waiting to check it out and no deletion has been requested |
| `SaManagerHandOut.WaiterMayObtainExpired` | strongSwan/5.5.2/src/libipsec/ipsec_sa_mgr.c:622-627 | and that case is reachable: a run from the initial state |
| `SaManagerHandOut.DoomedIsNotHandedOut` | strongSwan/5.5.2/src/libipsec/ipsec_sa_mgr.c:194-199 | once deletion is requested nobody obtains the SA who does not hold it already |
| `SaManagerHandOut.TimerExpiryDooms` | strongSwan/5.5.2/src/libipsec/ipsec_sa_mgr.c:299-317 | a hard expiry by the timer requests deletion in the same step |
| `SaManager.FoundIsFirst` | strongSwan/5.5.2/src/libipsec/ipsec_sa_mgr.c:487-488 | a lookup goes through the whole list from its start: the first entry that matches, or none exactly if none does |
| `SaManagerEffects.FoundBySpi` | strongSwan/5.5.2/src/libipsec/ipsec_sa_mgr.c:615-630 | checking out by SPI finds the first SA with that SPI and destination that has not hard-expired, wherever in the list; none exactly if there is none |
| `SaManagerEffects.FoundByReqid` | strongSwan/5.5.2/src/libipsec/ipsec_sa_mgr.c:598-613 | checking out by reqid finds the first SA with that reqid and direction that has not hard-expired |
| `SaManagerEffects.FoundByEnds` | strongSwan/5.5.2/src/libipsec/ipsec_sa_mgr.c:487-488 | adding, updating, querying and deleting find the first SA with SPI, source and destination, expired or not |
| `SaManagerEffects.InstalledUnlessListed` | strongSwan/5.5.2/src/libipsec/ipsec_sa_mgr.c:487-501 | an SA is installed in front of all others exactly if there is none with its SPI, source and destination; nothing else changes |
| `SaManagerEffects.DeletionIsRequested` | strongSwan/5.5.2/src/libipsec/ipsec_sa_mgr.c:571-588 | after `del_sa` the first SA with SPI, source and destination is gone or awaits its deletion, and all others are as they were |
| `SaManagerEffects.SaChangesIff` | strongSwan/5.5.2/src/libipsec/ipsec_sa_mgr.c:505-541 | whatever step is taken: an SA gets new addresses exactly by an update that finds it free, is marked expired exactly by the two kinds of expiry, and does not change otherwise |
| `SaManagerEffects.IdentityIsKept` | strongSwan/5.5.2/src/libipsec/ipsec_sa_mgr.c:450-657 | over every run an entry keeps its SPI, reqid and direction |
| `SaManagerEffects.NoneIsInstalledTwice` | strongSwan/5.5.2/src/libipsec/ipsec_sa_mgr.c:487-493 | over every run without `update_sa` no two SAs in the list have SPI, source and destination in common |
| `SaManagerEffects.UpdateKeepsDifferentIff` | strongSwan/5.5.2/src/libipsec/ipsec_sa_mgr.c:522-532 | an update keeps that so exactly if no other SA in the list has the SPI and the new addresses |
| `SaManagerEffects.UpdateMayDuplicate` | strongSwan/5.5.2/src/libipsec/ipsec_sa_mgr.c:522-532 | and for any two SAs with the same SPI there is an update that does not |
| `SaManagerObject.Manager.FindFirst` | strongSwan/5.5.2/src/libipsec/ipsec_sa_mgr.c:487-488 | the item returned matches the key and no earlier one in the list does; none is returned exactly if none matches |
| `SaManagerObject.Manager.WaitForEntry` | strongSwan/5.5.2/src/libipsec/ipsec_sa_mgr.c:185-202 | the fields of the entry after a stretch of `wait_for_entry` and its caller are those of the transition system |
| `SaManagerObject.Manager.Lookup` | strongSwan/5.5.2/src/libipsec/ipsec_sa_mgr.c:598-630 | checking out, querying and updating take the step the transition system describes |
| `SaManagerObject.Manager.ResumeWaiter` | strongSwan/5.5.2/src/libipsec/ipsec_sa_mgr.c:188-193 | so does a thread coming back from its wait for an entry |
| `SaManagerObject.Manager.Checkin` | strongSwan/5.5.2/src/libipsec/ipsec_sa_mgr.c:632-648 | so does checking in, which finds the entry by its SA |
| `SaManagerObject.Manager.AddSa` | strongSwan/5.5.2/src/libipsec/ipsec_sa_mgr.c:477-501 | so does installing: refused if there is such an SA already, else inserted first |
| `SaManagerObject.Manager.BeginRemoval` | strongSwan/5.5.2/src/libipsec/ipsec_sa_mgr.c:160-179 | so does entering `wait_remove_entry` |
| `SaManagerObject.Manager.ResumeRemover` | strongSwan/5.5.2/src/libipsec/ipsec_sa_mgr.c:169-178 | so does coming back from one of its waits |
| `SaManagerObject.Manager.Unlink` | strongSwan/5.5.2/src/libipsec/ipsec_sa_mgr.c:220-220 | exactly the one entry leaves the list, the order of the others stays |
| `SaManagerObject.Manager.DelSa` | strongSwan/5.5.2/src/libipsec/ipsec_sa_mgr.c:571-588 | so does deleting |
| `SaManagerObject.Manager.DestroyEntry` | strongSwan/5.5.2/src/libipsec/ipsec_sa_mgr.c:146-151 | and destroying the entry after the mutex was released |
| `SaManagerObject.Manager.SaExpired` | strongSwan/5.5.2/src/libipsec/ipsec_sa_mgr.c:294-320 | so does the expiry job, for an entry that may be gone |
| `SaManagerObject.Manager.UsageExpired` | strongSwan/5.5.2/src/libipsec/ipsec_sa.c:189-200 | so does an expiry by usage, by the thread that has the SA checked out |
| `SaManagerObject.Manager.FlushEntry` | strongSwan/5.5.2/src/libipsec/ipsec_sa_mgr.c:215-223 | so does each turn of the loop of `flush_entries` |
| `EspContext.WrappedIndexIsRightIff` | strongSwan/5.5.2/src/libipsec/esp_context.c:106-113 | reducing a wrapped 32-bit difference modulo the window size is right exactly for sizes that divide 2^32 |
| `EspContext.MultipleOfEightIsNotEnough` | strongSwan/5.5.2/src/libipsec/esp_context.c:26-29 | the comment's condition on the window size is not sufficient |
| `EspContext.Context.SetWindowBit` | strongSwan/5.5.2/src/libipsec/esp_context.c:78-91 | changes exactly the one bit of the circular bitmap |
| `EspContext.Context.CheckWindow` | strongSwan/5.5.2/src/libipsec/esp_context.c:106-113 | true exactly if the number is not in the set of authenticated ones |
| `EspContext.Context.VerifySeqno` | strongSwan/5.5.2/src/libipsec/esp_context.c:115-145 | true exactly if the context is inbound and the number is positive and either above the highest authenticated one, or less than 128 below it and not authenticated before |
| `EspContext.Context.ShiftWindow` | strongSwan/5.5.2/src/libipsec/esp_context.c:154-162 | moves the window by any number of places up to its size: older marks keep their numbers, new places are clear |
| `EspContext.Context.SetAuthenticatedSeqno` | strongSwan/5.5.2/src/libipsec/esp_context.c:147-174 | adds the number to the set, and raises the highest one, through any jump |
| `EspContext.Context.NextSeqno` | strongSwan/5.5.2/src/libipsec/esp_context.c:182-191 | outbound numbers go up by one and stop at 2^32 - 1 instead of wrapping |
| `EspContext.SeenIsTaken` | strongSwan/5.5.2/src/libipsec/esp_context.c:115-174 | after any sequence of arrivals a number is marked exactly if it was before or some arrival with it was taken |
| `EspContext.TakenIff` | strongSwan/5.5.2/src/libipsec/esp_context.c:115-174 | whatever is reordered, lost, duplicated or forged, an arrival is taken exactly if it is authentic and its number is a new high, or inside the window and not taken before |
| `EspContext.TakenAtMostOnce` | strongSwan/5.5.2/src/libipsec/esp_context.c:115-174 | no two arrivals taken have the same number |
| `EspContext.HighestGrows` | strongSwan/5.5.2/src/libipsec/esp_context.c:147-174 | the highest number never goes down |
| `EspContext.HighestIsTaken` | strongSwan/5.5.2/src/libipsec/esp_context.c:147-174 | it is that of an arrival that was taken, or the one at the start, and no arrival taken is above it |
| `EspPacket.PaddingWorksIff` | strongSwan/5.5.2/src/libipsec/esp_packet.c:311-320 | after the two stages of padding the ICV starts on a 4-byte boundary; the plaintext is whole blocks and the pad length fits its byte for every payload exactly if the block size is 1, or 2 with an even IV size, or a multiple of 4 up to 256 with an IV size that is a multiple of 4 |
| `EspPacket.PaddingIsLeast` | strongSwan/5.5.2/src/libipsec/esp_packet.c:311-320 | no shorter padding ends a block and lets the ICV start on a 4-byte boundary, whatever the sizes |
| `EspPacket.GeneratePadding` | strongSwan/5.5.2/src/libipsec/esp_packet.c:271-279 | byte k of its part of the buffer is k + 1, for up to 255 bytes, modulo 256 beyond; nothing else changes |
| `EspPacket.CheckPadding` | strongSwan/5.5.2/src/libipsec/esp_packet.c:155-167 | accepts exactly the bytes 1, 2, 3, ..., which is what is generated |
| `EspPacket.UnpadIff` | strongSwan/5.5.2/src/libipsec/esp_packet.c:172-196 | a plaintext is taken apart into payload and next header exactly if it is the payload, then 1, 2, 3, ..., their number, and the next header (section 2.4 of RFC 4303) |
| `EspPacket.Packet.ParseHeader` | strongSwan/5.5.2/src/libipsec/esp_packet.c:131-150 | the SPI, unless the packet is too short for SPI and sequence number |
| `EspPacket.Packet.Encrypt` | strongSwan/5.5.2/src/libipsec/esp_packet.c:281-371 | takes the next number, which stays used if the encryption then fails, and produces header, IV and the encryption of the padded payload |
| `EspPacket.SealInPlace` | strongSwan/5.5.2/src/libipsec/esp_packet.c:320-368 | the buffer filled piece by piece and encrypted in place is that packet |
| `EspPacket.SealedIsEspPacket` | strongSwan/5.5.2/src/libipsec/esp_packet.c:320-368 | byte by byte: SPI and number in network order, the IV generated for the number, then the encryption of the padded payload with the first 8 bytes as associated data; whole blocks, ICV on a 4-byte boundary |
| `EspPacket.NextHeaderSays` | strongSwan/5.5.2/src/libipsec/esp_packet.c:453-472 | the next header is 4 for an IPv4 packet, 41 for an IPv6 packet, 59 for none |
| `EspPacket.Packet.Decrypt` | strongSwan/5.5.2/src/libipsec/esp_packet.c:212-266 | status, payload, next header and window afterwards in every case; the window changes only after the ICV was verified |
| `EspPacket.OpensIff` | strongSwan/5.5.2/src/libipsec/esp_packet.c:212-266 | for any bytes: a payload comes out exactly if the sizes are right, the number in bytes 4 to 7 is new, the rest decrypts with the first 8 bytes as associated data, and the plaintext is that payload padded and parses; which status else, and when the number is used up |
| `EspPacket.Packet.RemovePaddingFrom` | strongSwan/5.5.2/src/libipsec/esp_packet.c:172-210 | the payload is set exactly if the padding is well formed and the payload parses |
| `EspPacket.UnpadPlaintext` | strongSwan/5.5.2/src/libipsec/esp_packet.c:172-210 | what the sender padded is unpadded to payload and next header |
| `EspPacket.SplitSealed` | strongSwan/5.5.2/src/libipsec/esp_packet.c:219-246 | a packet made by `encrypt` is taken apart into what it was made of, and passes the length checks |
| `EspPacket.OpenSealed` | strongSwan/5.5.2/src/libipsec/esp_packet.c:212-266 | what comes of a packet made by `encrypt` in a context with the same keys, whatever its payload |
| `EspPacket.RoundTripIff` | strongSwan/5.5.2/src/libipsec/esp_packet.c:212-266 | for every parsed packet: the same packet and next header come out exactly if the number is new and an IPv4 header declares at least 20 bytes |
| `EspPacket.DummyIsAuthenticatedOnly` | strongSwan/5.5.2/src/libipsec/esp_packet.c:453-472 | a packet without payload uses up its number but is not a success |
| `EspPacket.EncryptAll` | strongSwan/5.5.2/src/libipsec/esp_packet.c:281-371 | a run of encryptions in place sends what the encryption of one after the other sends |
| `EspPacket.NumbersNeverRepeat` | strongSwan/5.5.2/src/libipsec/esp_packet.c:281-371 | over such a run, with encryptions that fail in between: a packet that is produced carries the SPI and as its number the number of encryptions before it plus one, and none is produced once that exceeds 2^32 - 1 |
| `EspPacket.NumbersIncrease` | strongSwan/5.5.2/src/libipsec/esp_packet.c:281-371 | so the numbers of the packets produced strictly increase within 1 to 2^32 - 1 |
| `EspPacket.OpenAllIsAfter` | strongSwan/5.5.2/src/libipsec/esp_packet.c:212-266 | a run of decryptions moves the window as the arrivals it amounts to |
| `EspPacket.DeliveredOnce` | strongSwan/5.5.2/src/libipsec/esp_packet.c:212-266 | among arbitrary other packets, one that was sealed under a number yields its payload exactly if the number is a new high, or inside the window and not taken before, and then no later packet is taken under that number |
| `IpPacket.ParseIsIdempotentIff` | strongSwan/5.5.2/src/libipsec/ip_packet.c:225-318 | the parser accepts what it kept of a packet, with the same result, exactly if an IPv4 header declares at least 20 bytes |
| `IpPacket.PaddingIsIgnored` | strongSwan/5.5.2/src/libipsec/ip_packet.c:253-254 | bytes after a complete packet change nothing |
| `IpPacket.ParsesIff` | strongSwan/5.5.2/src/libipsec/ip_packet.c:225-318 | a packet is accepted exactly if its header of version 4 or 6 is complete, and what follows that header in the part kept has room for a UDP or TCP header if it is one |
| `IpPacket.Ipv4IsParsed` | strongSwan/5.5.2/src/libipsec/ip_packet.c:239-265 | any packet of the form of section 3.1 of RFC 791, with any options, is parsed into its addresses, ports, protocol and payload |
| `IpPacket.Ipv6IsParsed` | strongSwan/5.5.2/src/libipsec/ip_packet.c:268-295 | so is any of the form of section 3 of RFC 8200 without extension headers |
| `IpPacket.FixTransportHeader` | strongSwan/5.5.2/src/libipsec/ip_packet.c:376-433 | ports and checksum are written into the transport header in place, and nothing else changes |
| `IpPacket.PseudoHeaderChecksum` | strongSwan/5.5.2/src/libipsec/ip_packet.c:328-371 | the checksum over the pseudo header of the address family, or 0xffff for another family |
| `IpPacket.FixedFields` | strongSwan/5.5.2/src/libipsec/ip_packet.c:376-433 | with that, the ones' complement sum over segment, addresses, protocol and length is all ones, for odd and even lengths |
| `IpPacket.OthersUntouched` | strongSwan/5.5.2/src/libipsec/ip_packet.c:385-433 | anything but UDP and TCP with a complete header is left as it is |
| `IpPacket.PseudoHeaderSum` | strongSwan/5.5.2/src/libipsec/ip_packet.c:328-371 | the pseudo header adds up to the words of both addresses, the protocol and the length, for either family |
| `IpPacket.BuiltHeader` | strongSwan/5.5.2/src/libipsec/ip_packet.c:452-463 | the header of a built packet is one of RFC 791 without options or fragmentation and with time to live 128 |
| `IpPacket.CreateFromData` | strongSwan/5.5.2/src/libipsec/ip_packet.c:438-491 | the packet that is built, or none |
| `IpPacket.CreateUdpFromData` | strongSwan/5.5.2/src/libipsec/ip_packet.c:496-509 | the UDP packet that is built, or none |
| `IpPacket.BuildingIPv6Fails` | strongSwan/5.5.2/src/libipsec/ip_packet.c:471-486 | no IPv6 packet can be built, because the version field is written in the wrong place |
| `IpPacket.BuiltIsParsed` | strongSwan/5.5.2/src/libipsec/ip_packet.c:438-469 | a built IPv4 packet of any size is as long as its 16-bit length field says, parses to the addresses and protocol it was built from and to what is left of the payload, and its header sums to all ones |
| `IpPacket.UdpRoundTrip` | strongSwan/5.5.2/src/libipsec/ip_packet.c:496-509 | building and parsing a UDP packet gives back addresses, ports and data, with correct header and UDP checksums, exactly if the data fits the 16-bit total length |
| `IpPacket.OversizedIsCut` | strongSwan/5.5.2/src/libipsec/ip_packet.c:438-469 | what happens otherwise: the packet is cut to the length that wrapped around, and none results exactly if the transport header does not fit that |
| `Checksum.ComputeInc` | strongSwan/5.5.2/src/libstrongswan/utils/chunk.c:999-1016 | the loops compute the incremental Internet checksum (RFC 1071) |
| `Checksum.IncIsOfConcat` | strongSwan/5.5.2/src/libstrongswan/utils/chunk.c:999-1016 | adding to a checksum is the checksum of the concatenation, if the first part has an even length |
| `Checksum.StoredChecksumCloses` | strongSwan/5.5.2/src/libipsec/ip_packet.c:403-405 | storing the checksum of a text in the text makes its sum all ones |
| `Checksum.ChecksumIsResidue` | strongSwan/5.5.2/src/libstrongswan/utils/chunk.c:999-1025 | the checksum is the complement of the bytes, an odd number with a zero byte at the end, read as one number modulo 2^16 - 1; a sum is all ones exactly for multiples of that other than 0 |
| `PolicyMgr.PriorityIsRank` | strongSwan/5.5.2/src/libipsec/ipsec_policy_mgr.c:73-113 | the 32-bit value encodes the order by class (pass, default, routed, fallback), then by the bits the prefixes leave open, then port, then protocol: smaller exactly for lower ranks, equal exactly for equal ones |
| `PolicyMgr.NoUnderflow` | strongSwan/5.5.2/src/libipsec/ipsec_policy_mgr.c:77-112 | no step of the computation wraps around for prefixes of 0 to 128 bits, and each class has a range of its own above the one before |
| `PolicyMgr.Manager.AddPolicy` | strongSwan/5.5.2/src/libipsec/ipsec_policy_mgr.c:140-175 | inserts the policy before the first one with a value that is not smaller, and ignores the kinds that are not handled |
| `PolicyMgr.Manager.DelPolicy` | strongSwan/5.5.2/src/libipsec/ipsec_policy_mgr.c:177-217 | removes the first policy with the value and the arguments given; fails exactly if there is none |
| `PolicyMgr.Manager.FlushPolicies` | strongSwan/5.5.2/src/libipsec/ipsec_policy_mgr.c:219-234 | removes all |
| `PolicyMgr.Manager.FindByPacket` | strongSwan/5.5.2/src/libipsec/ipsec_policy_mgr.c:236-263 | the first policy that direction, packet and reqid select: one whose source range and ports contain the source of the packet, and whose destination ones the destination, with its protocol |
| `IpsecPolicy.GovernsIff` | strongSwan/5.5.2/src/libipsec/ipsec_policy.c:103-134 | a policy matches a packet exactly if, addresses read as numbers, the packet's source lies between the ends of the source selector and its destination between those of the destination selector, both ports in range or any or opaque, and the protocol is that of the selectors or these have none |
| `IpsecPolicy.MatchesIff` | strongSwan/5.5.2/src/libipsec/ipsec_policy.c:88-101 | a policy is the one to delete exactly if it agrees with the arguments in all but the kind |
| `PolicyMgr.RunKeepsOrder` | strongSwan/5.5.2/src/libipsec/ipsec_policy_mgr.c:162-172 | after any run the list is sorted by value, and newest first among equals |
| `PolicyMgr.ListRefinesSet` | strongSwan/5.5.2/src/libipsec/ipsec_policy_mgr.c:140-234 | each operation on the list is one on a plain set of policies: a deletion removes the newest that matches, an addition adds one |
| `PolicyMgr.BestAfterAnyRun` | strongSwan/5.5.2/src/libipsec/ipsec_policy_mgr.c:236-263 | after any run, the policy found is of all installed ones that the packet selects the one with the lowest rank, the newest among equals; none is found exactly if none is selected |
| `PolicyMgr.OnlyHandledInstalled` | strongSwan/5.5.2/src/libipsec/ipsec_policy_mgr.c:146-155 | after any run only policies of type IPsec for inbound or outbound traffic are installed |
| `PolicyMgr.BestApplies` | strongSwan/5.5.2/src/libipsec/ipsec_policy_mgr.c:236-263 | for any parsed packet, after any run: the best of the installed policies for the direction and reqid that cover its addresses, ports and protocol, or none exactly if there is none |
| `PolicyMgr.DeleteUndoesAdd` | strongSwan/5.5.2/src/libipsec/ipsec_policy_mgr.c:140-217 | an addition and a deletion with the same arguments leave any list as it was |
| `PolicyMgr.NestedRestores` | strongSwan/5.5.2/src/libipsec/ipsec_policy_mgr.c:140-217 | so does any properly nested sequence of such pairs |
| `IpsecSa.SaObject.Expire` | strongSwan/5.5.2/src/libipsec/ipsec_sa.c:189-210 | which flag is set and which event is raised |
| `IpsecSa.SaObject.UpdateUsestats` | strongSwan/5.5.2/src/libipsec/ipsec_sa.c:212-239 | counters in unsigned 64-bit arithmetic, and the first limit reached, life before rekey |
| `IpsecSa.EventsOfAnyRun` | strongSwan/5.5.2/src/libipsec/ipsec_sa.c:189-210 | over any run the events are none, one soft, one hard, or one soft and then one hard one, as the flags say |
| `IpsecSa.EventsTellFlags` | strongSwan/5.5.2/src/libipsec/ipsec_sa.c:189-210 | each operation raises an event exactly when it sets a flag, naming the SPI and the destination the SA has then |
| `IpsecSa.HardIffDemanded` | strongSwan/5.5.2/src/libipsec/ipsec_sa.c:212-239 | an SA is hard-expired exactly if some operation demanded it |
| `IpsecSa.NotSelectedOnceHard` | strongSwan/5.5.2/src/libipsec/ipsec_sa.c:241-260 | from then on neither lookup for use selects it |
| `IpsecSa.CountersAreTotals` | strongSwan/5.5.2/src/libipsec/ipsec_sa.c:215-217 | the counters are the totals as long as these fit 64 bits |
| `IpsecSa.UsageExpiresAtLimits` | strongSwan/5.5.2/src/libipsec/ipsec_sa.c:212-239 | then the SA is hard-expired exactly if a life limit is reached, and soft-expired exactly if a rekey limit had been reached when no life limit was |
| `IpsecSa.ExpiryJob.Schedule` | strongSwan/5.5.2/src/libipsec/ipsec_sa_mgr.c:325-357 | whether, when and with what offset the expiry job is scheduled |
| `IpsecSa.ExpiryJob.Fire` | strongSwan/5.5.2/src/libipsec/ipsec_sa_mgr.c:294-320 | what one firing of the job asks for, and when it runs again |
| `IpsecSa.RunTimer` | strongSwan/5.5.2/src/libipsec/ipsec_sa_mgr.c:294-357 | scheduling the job and running it when it is due until it is done: the firings are those of the timeline, and the SA is expired by them |
| `IpsecSa.TimelineEvents` | strongSwan/5.5.2/src/libipsec/ipsec_sa_mgr.c:294-357 | and the events raised for an SA that is not used are just those of the timeline |
| `IpsecSa.TimelineIsConfiguredIff` | strongSwan/5.5.2/src/libipsec/ipsec_sa_mgr.c:333-356 | soft at rekey and hard at life, or only hard at life, or nothing: exactly if the time spans involved fit 32 bits |
| `IpsecSa.SpanOfExactMultipleSkipsRekeying` | strongSwan/5.5.2/src/libipsec/ipsec_sa_mgr.c:344-345 | a span of 2^32 seconds between rekeying and life makes the first firing a hard one |
| `Processor.Processor.Emit` | strongSwan/5.5.2/src/libipsec/ipsec_processor.c:91-236 | everything a job does to what it shares is recorded, and only allowed if what it uses, hands over or gives back is in hand |
| `Processor.Processor.CheckOutSa` | strongSwan/5.5.2/src/libipsec/ipsec_sa_mgr.c:598-630 | the first SA in the list that the key finds: SPI and destination, or reqid and direction, not hard-expired |
| `Processor.Processor.DecryptPacket` | strongSwan/5.5.2/src/libipsec/ipsec_processor.c:124-124 | needs the SA checked out and the packet in hand |
| `Processor.Processor.Authenticate` | strongSwan/5.5.2/src/libipsec/ipsec_processor.c:116-133 | from the checkout of the SA to its return, each use of the SA in between: refused, failed, or opened and counted |
| `Processor.Processor.DispatchInbound` | strongSwan/5.5.2/src/libipsec/ipsec_processor.c:135-163 | deliver, drop for lack of a callback, or drop by policy or next header |
| `Processor.Processor.DeliverInbound` | strongSwan/5.5.2/src/libipsec/ipsec_processor.c:72-86 | the payload goes to the callback, if there is one, and what is left of the packet is destroyed |
| `Processor.Processor.ProcessInbound` | strongSwan/5.5.2/src/libipsec/ipsec_processor.c:91-165 | on every path the job ends with empty hands; what it delivered, and what became of the SA that SPI and destination find |
| `Processor.Processor.Protect` | strongSwan/5.5.2/src/libipsec/ipsec_processor.c:219-233 | addresses read, packet encrypted and counted while the SA is checked out; SA and policy given back |
| `Processor.Processor.SendOutbound` | strongSwan/5.5.2/src/libipsec/ipsec_processor.c:170-184 | the packet goes to the callback whole, or is destroyed |
| `Processor.Processor.ProcessOutbound` | strongSwan/5.5.2/src/libipsec/ipsec_processor.c:189-236 | on every path the job ends with empty hands; what it sent, and what became of the SA that the reqid of the policy finds |
| `Processor.Processor.UnregisterInbound` | strongSwan/5.5.2/src/libipsec/ipsec_processor.c:259-268 | removes the callback only if it is the one given |
| `Processor.Processor.UnregisterOutbound` | strongSwan/5.5.2/src/libipsec/ipsec_processor.c:279-288 | removes the callback only if it is the one given |
| `Processor.EverythingIsGivenBack` | strongSwan/5.5.2/src/libipsec/ipsec_processor.c:91-236 | so over any number of jobs every packet was destroyed or sent exactly once, every SA checked in once and every policy released once, but for what is in hand |
| `Processor.UsedOnlyWhileHeld` | strongSwan/5.5.2/src/libipsec/ipsec_processor.c:91-236 | at each point: an SA is used only between its checkout and its return, a policy only while held, a packet is handed over or destroyed only if it was not destroyed or sent before, and its payload is delivered at most once |
| `Processor.CountersMatchTraffic` | strongSwan/5.5.2/src/libipsec/ipsec_processor.c:124-131 | over any traffic in either direction the counters of an SA are the number of IP packets that got through and their total size |
| `Processor.DeliveredIff` | strongSwan/5.5.2/src/libipsec/ipsec_processor.c:107-151 | a payload is delivered exactly if the first SA with the packet's SPI and destination that has not hard-expired is inbound and authenticated it under a new number, its next header says IP, there is a callback, and an inbound policy selects it |
| `Processor.AdmittedBy` | strongSwan/5.5.2/src/libipsec/ipsec_policy_mgr.c:250-257 | that policy is an inbound one, covers the addresses, ports and protocol of the packet, and has the SA's reqid unless that is 0 |
| `Processor.SentBy` | strongSwan/5.5.2/src/libipsec/ipsec_processor.c:209-234 | what is sent was sealed by the first SA in the list with the reqid of the policy that is outbound and has not hard-expired, under its next number and its SPI, and goes to its destination |
| `Processor.TunnelDelivers` | strongSwan/5.5.2/src/libipsec/ipsec_processor.c:91-236 | end to end: what an outbound job sends finds the paired SA of the receiver by the SPI written into it and the destination, and is delivered as the very packet that was queued exactly if that SA has not hard-expired and can be had, the number is new there, the IPv4 header declares at least 20 bytes and a policy lets it in |
| `RadiusCrypto.Crypt` | strongSwan/5.5.2/src/libradius/radius_message.c:390-449 | with the same buffer twice the chained encryption, with two buffers the decryption, for every positive multiple of 16 bytes; refused otherwise; a hasher left with data by a failed call spoils the first block only |
| `RadiusCrypto.XorIsBitwise` | strongSwan/5.5.2/src/libradius/radius_message.c:432-432 | a bit of the exclusive or is set exactly if the two bits differ |
| `RadiusCrypto.ChainFormula` | strongSwan/5.5.2/src/libradius/radius_message.c:396-407 | for any number of blocks, bit by bit: each block of output is the block of input xor the hash of the secret and the previous block of ciphertext, at first the seed |
| `RadiusCrypto.ChainInverse` | strongSwan/5.5.2/src/libradius/radius_message.c:396-407 | decryption undoes encryption (section 5.2 of RFC 2865) |
| `RadiusCrypto.ChainInverseToo` | strongSwan/5.5.2/src/libradius/radius_message.c:396-407 | and encryption decryption |
| `RadiusMessage.AttributeEnumerator.Enumerate` | strongSwan/5.5.2/src/libradius/radius_message.c:246-265 | on any bytes: whether there is a whole attribute, where it is, its size (which wraps around if it declares less than 2), and the cursor moved by what it declares; if the attributes are proper, these are just the first of those left and the others |
| `RadiusMessage.EndsIff` | strongSwan/5.5.2/src/libradius/radius_message.c:546-588 | the search for a Message-Authenticator comes to an end exactly if it does not get to an attribute that declares a length of 0 |
| `RadiusMessage.AttributesOfEncoding` | strongSwan/5.5.2/src/libradius/radius_message.c:246-265 | a list of attributes that was encoded is enumerated again in order, values cut to 253 bytes |
| `RadiusMessage.VendorEnumerator.Enumerate` | strongSwan/5.5.2/src/libradius/radius_message.c:301-341 | the nested enumerator yields the sub-attributes of all Vendor-Specific attributes in order, each up to its first malformed one, and terminates |
| `RadiusMessage.AllVendorAttributes` | strongSwan/5.5.2/src/libradius/radius_message.c:301-364 | call by call until nothing is left it yields exactly the flattening of all Vendor-Specific attributes |
| `RadiusMessage.VendorAttributesOfEncoding` | strongSwan/5.5.2/src/libradius/radius_message.c:308-333 | sub-attributes that were encoded under a vendor come out in order with that vendor, up to a malformed one, which ends only its own attribute (section 5.26 of RFC 2865) |
| `RadiusMessageObject.Message.Create` | strongSwan/5.5.2/src/libradius/radius_message.c:672-683 | a header with the code, length 20 and no attributes |
| `RadiusMessageObject.Message.Parse` | strongSwan/5.5.2/src/libradius/radius_message.c:688-702 | accepts exactly the data that is as long as its length field says, and at least a header |
| `RadiusMessageObject.Message.Add` | strongSwan/5.5.2/src/libradius/radius_message.c:366-388 | appends the encoded attribute and adjusts the length field, which wraps around; the result is a well-formed message exactly if the length fits 16 bits; the first User-Password is kept aside, padded |
| `RadiusSigning.AddedIsEnumerated` | strongSwan/5.5.2/src/libradius/radius_message.c:366-388 | after any sequence of additions that fits 16 bits the message is as long as it says and enumerates to just what was added |
| `RadiusMessageObject.Message.Sign` | strongSwan/5.5.2/src/libradius/radius_message.c:451-516 | the buffer afterwards is the signed message: password encrypted and appended, Message-Authenticator over the message in which it is zero, Response-Authenticator over all |
| `RadiusMessageObject.Message.Verify` | strongSwan/5.5.2/src/libradius/radius_message.c:518-601 | the verdict, and the buffer, which is as before if the verdict is good, for every message for which the call returns |
| `RadiusMessageObject.Message.VerifyMessageAuthenticator` | strongSwan/5.5.2/src/libradius/radius_message.c:557-581 | the value is blanked while it is checked, and put back exactly if it is right |
| `RadiusSigning.CoveredChecks` | strongSwan/5.5.2/src/libradius/radius_message.c:553-587 | the search for a Message-Authenticator in a signed message finds the right one, or reports whether an EAP-Message lacks one |
| `RadiusSigning.SignedVerifies` | strongSwan/5.5.2/src/libradius/radius_message.c:451-601 | a message that was built by additions and signed, a request with random and anything else without, verifies under the same secret and request authenticator exactly if a Message-Authenticator was asked for in case there is an EAP-Message; verification leaves every byte as it is (section 3 of RFC 2865, section 5.14 of RFC 2869) |
| `RadiusSigning.VerifiedIff` | strongSwan/5.5.2/src/libradius/radius_message.c:518-601 | which messages are accepted, in terms of bytes: a request, or a response whose authenticator is the hash over itself with the request's authenticator and the secret; and the first Message-Authenticator has 16 bytes and is right, or there is neither one nor an EAP-Message |
| `RadiusSigning.SignedIsEnumerated` | strongSwan/5.5.2/src/libradius/radius_message.c:451-516 | a signed message enumerates to what was added, the encrypted password, and the Message-Authenticator |
| `RadiusSigning.PasswordArrivesIff` | strongSwan/5.5.2/src/libradius/radius_message.c:366-388 | whoever knows the secret reads the password of a request exactly if it has at most 240 bytes with its padding |
| `RadiusSocket.DecryptMppeKey` | strongSwan/5.5.2/src/libradius/radius_socket.c:302-316 | the key found in the decrypted text, none if sizes do not fit |
| `RadiusSocket.KeyOfText` | strongSwan/5.5.2/src/libradius/radius_socket.c:302-316 | any text that starts with the length of a key and the key, whatever fills it up, is decrypted to that key; one that declares more than there is, to none |
| `RadiusSocket.UnwrapWrapped` | strongSwan/5.5.2/src/libradius/radius_socket.c:302-316 | any key of at most 255 bytes that was prefixed with its length, padded and encrypted as in section 2.4.2 of RFC 2548 is recovered |
| `RadiusSocket.DecryptMsk` | strongSwan/5.5.2/src/libradius/radius_socket.c:318-356 | with a hasher that works, receive key and send key from the last attributes of their kind, if both are there |
| `RadiusSocket.MskArrives` | strongSwan/5.5.2/src/libradius/radius_socket.c:318-356 | wherever among the attributes a server puts the two keys, and in whatever order, the client assembles them |

## Left out

- RadiusMessage.VendorEnumerator.Enumerate: attributes that are wholly there have to declare a length of at least 2, as section 5 of RFC 2865 demands (also for `DecryptMsk`); for a length of 0 the source loops forever, for 1 the value has a size that wrapped around.
- RadiusMessageObject.Message.Verify: messages whose search does not come to an end (`EndsIff`), with which the source does not return; nor what is left in the buffer after a negative verdict of a signer or hasher that may fail.
- RadiusMessageObject.Message.Sign: the signed length has to fit 16 bits; what the source does with a message once `Add` has let its length field wrap around is not modelled, nor what a failing call leaves in the buffer.
- RadiusSocket.DecryptMsk: which key results if a call of the hasher fails is not stated; the source goes on with a hasher in an unknown state.
- RadiusSocket.MskArrives: keys of at most 239 bytes, which is what one attribute has room for.
- IpsecSa.UsageExpiresAtLimits: as long as the 64-bit counters do not wrap around; `UpdateUsestats` and `HardIffDemanded` cover the wrap.
- SaManagerObject: the waits are not loops, since each method is one stretch of code; the order of the stretches is that of the transition system.
- SaManager: the events a soft expiry raises, result codes of `update_sa` and `query_sa`, and the hash table of allocated SPIs (`get_spi`, `allocate_spi`, whose matcher is given a constant where it expects a pointer).
- Processor.Processor.CheckOutSa: an SA that others change while the job waits for it is not modelled; the job gets it as it was when it was found. `SaManagerHandOut` has what a waiting thread may obtain.
- IpsecSa.RunTimer: the scheduler is punctual, and the SA stays installed.
- Expiry by the timer and by usage at the same time: the source does not synchronise the two calls of `expire`; each is one step here.
- `ipsec_sa_create`: its refusal of protocols, modes and options that are not supported, and key setup.
- Traffic selectors: how the length of the common prefix is computed (`calc_netbits`); it is a number from 0 to 128 here.
- IPv4 options and IPv6 extension headers beyond what the parser looks at, and ICMP, whose ports are 0 as in the source.
- A UDP checksum that comes out as 0 is stored as 0, as in the source; that this means "no checksum" to a receiver is not modelled.
- Read-write locks, queues that block, and the callbacks' own behaviour.
- Sockets, retransmission and DNS lookup of `radius_socket.c`; the server list of `radius_config.c`.
- Memory management and logging, except for the ownership of entries, packets, SAs and policies.
- libpttls, libfast, libsimaka, the daemons, the Android service and all other parts of the repository.
