# A verified model of the RADIUS library

This project models the RADIUS client, server and codecs of the library in
Dafny and proves what they promise: packets that are signed and checked,
hidden passwords and keys, fragmented attributes, duplicate detection under
every interleaving, a client that shares 256 Identifiers and retransmits, the
dictionary loader, and the framing of byte streams.

`dafny verify dfyconfig.toml` checks everything.

## How it is built

* MD5, HMAC-MD5, random octets, clock readings, number parsing and path
  resolution are arguments, so every theorem holds for all of them.
* What the source computes by steps is a method or a class whose contract ties
  it to a function, called its specification below; the theorems are about
  these functions. What the source computes by expressions is a function.
* Errors are values. A Go slice expression out of range is the error
  `RuntimePanic`, so that no operation refuses an input the source handles.
  Nothing in the library recovers from a panic; the servers give it an outcome
  of its own.
* Concurrent code is a state machine: one step per mutex section or channel
  operation, and theorems over every run.

| modules | source |
|---|---|
| `Bytes`, `Chain` | octets, digests, errors; the feedback chain shared by the ciphers |
| `Attributes`, `Walks`, `Serialize`, `Wire`, `Packet`, `PacketCodec` | packet/packet.go, packet/attribute.go, protocol/verify.go |
| `Exchange`, `Panics`, `Refusals`, `Spill`, `Limits`, `Requests`, `Session` | what an exchange guarantees, exactly when, and from end to end |
| `Crypto`, `Tunnel`, `Vendors` | crypto/crypto.go, crypto/tunnel.go, crypto/mppe.go, vendors |
| `Extended` | packet/extended.go |
| `Dedup`, `DedupRuns`, `DedupLimits`, `Server`, `Turns`, `UdpServer`, `TcpServer` | server/dedup.go, server/server.go |
| `Identifiers`, `Backoff`, `Retransmission`, `Client` | protocol/identifier.go, protocol/retransmit.go, protocol/client.go |
| `Includes`, `Loader`, `Parser`, `Dictionary` | dictionary |
| `Framing` | transport/framed.go, transport/tcp.go |
| `MSCHAP` | crypto/mschapv2.go |

## Where the code and its documentation differ

The model follows the code. Each difference is settled by an exact condition
or by a concrete run.

* Octets behind the Length of a packet are to be ignored as padding, but the
  HMAC is taken over the whole buffer (packet/packet.go:321):
  `Limits.PaddingIgnoredIff`, `Requests.RequestPaddingIff`.
* Marshal never checks the size of the Message-Authenticator
  (packet/packet.go:90-94), and panics when its 16 octets run past the end:
  `Limits.SelfSignedAcceptedIff`, `Limits.ReplyRecoveredIff`,
  `Requests.AccessRecoveredIff`, `Panics.MarshalPanicsIff`, `Server.PanickedIff`.
* An EAP exchange is said to validate the Message-Authenticator on every reply
  (protocol/client.go:63-65); a reply without one is accepted (protocol/verify.go:57-61):
  `Session.UnsignedReplyAcceptedIff`.
* A reply that fails verification is said to be discarded until the context
  deadline (protocol/client.go:465-469); it uses up an attempt
  (protocol/client.go:533-543): `Retransmission.RefusedReplyUsesAttempt`.
* ReadPacket promises ErrMalformedPacket for a connection that closes inside a
  packet (transport/tcp.go:118-120) and returns ErrConnClosed
  (transport/tcp.go:282-284): `Framing.ReadErrsIff`.
* DecodeVSA promises an error for attributes that are not Type 26 and never
  looks at the type (vendors/vendors.go:56-61): `Vendors.DecodeVSAErrsIff`.
* MarshalExtended allows 253 octets for Types 241, 243 and 244, where the
  Length octet wraps to 0 (packet/extended.go:94): `Extended.ExtendedRoundTripIff`.
  The code treats Type 242 as the one with a flags octet; section 2.2 of
  RFC 6929 gives that format to Types 245 and 246.
* Seen reads the clock before it takes the mutex, and Store finds its entry by
  key only (server/dedup.go:74-110): `DedupLimits.AtMostOncePerWindowIff`,
  `DedupLimits.StaleReadingRunsTwice`, `DedupRuns.StoreKeepsRepliesIff`,
  `DedupLimits.RepliesRightIff`, `DedupLimits.LateStoreLeaks`.
* A request that uses the Identifier of another one again within ttl counts as
  its duplicate, whatever it holds (server/dedup.go:167-176):
  `TcpServer.ReusedIdentifier`, and `Limits.ReplyBoundToRequestIff` for what its
  sender makes of the answer.
* Lookup is described as returning at once while the handler still runs; it
  waits (server/dedup.go:112-123): `DedupRuns.WaiterReleasedIff`.
* The delay Initial << attempt can wrap around to a small positive number below
  the cap (protocol/retransmit.go:78-81): `Backoff.DelayAsIntendedIff`,
  `Backoff.WrappedDelay`.
* DecodeTunnelInteger cannot tell an untagged integer from a tagged one, as its
  comment says (crypto/tunnel.go:253-261): `Tunnel.TunnelIntegerRoundTripIff`.

## Model

| member | source | states |
|---|---|---|
| `Attributes.UnmarshalTlv` | packet/attribute.go:44-73 | an attribute that fits is read back from in front of any octets, which are returned untouched |
| `Attributes.UnmarshalShape` | packet/attribute.go:58-73 | whatever is decoded is the encoding of the returned attribute followed by the returned rest, which is shorter |
| `Attributes.DecodeAcceptsEncodings` | packet/packet.go:208-217 | the attribute loop accepts an octet string with a list exactly when the string is the encoding of that list: loop and concatenated MarshalBinary are mutual inverses |
| `Attributes.DecodePrefix` | packet/packet.go:208-217 | the loop distributes over any already encoded prefix, errors included |
| `Serialize.SerializeLoop` | packet/packet.go:147-172 | the serializing loop yields the section and the Message-Authenticator offset of the specification, or its first error |
| `Serialize.SerializeExactly` | packet/packet.go:147-172 | serialization succeeds exactly when every value has room and there is at most one Message-Authenticator; it then yields the encoding of the wire attributes and the offset of the Message-Authenticator in it |
| `Serialize.WireLengthIs` | packet/packet.go:147-172 | the length of the section follows from the attributes alone, hidden passwords counted in whole blocks |
| `Walks.ZeroMAInPlace` | packet/packet.go:354-369 | the in-place walk zeroes what the specification says and touches nothing else |
| `Walks.ZeroedInFront` | packet/packet.go:354-369 | behind any attributes that are no Message-Authenticator of Length 18, the first one that is loses its value and nothing else changes, whatever follows |
| `Walks.ZeroStops` | packet/packet.go:354-369 | octets that do not decode end the walk before anything is changed |
| `Walks.FindMALoop` | packet/packet.go:298-312 | the search loop returns the offset, the absence or the parse error of the specification |
| `Walks.FindEncode` | packet/packet.go:298-312 | on every encoding the search finds the offset recorded while serializing |
| `Walks.OverwriteIsSetMA` | packet/packet.go:126-129 | writing 16 octets behind that offset changes the value of the first Message-Authenticator and nothing else |
| `Walks.WalksAgree` | packet/packet.go:354-369 | serializing, searching and zeroing meet at the same 16 octets |
| `PacketCodec.PacketBuffer.Marshal` | packet/packet.go:64-139 | the guards in their order and the signed packet of the specification, or its error |
| `PacketCodec.SignInPlace` | packet/packet.go:80-139 | the ordered passes over one buffer (clear, Request Authenticator, HMAC, write back, Response Authenticator) compute the signed packet of the specification |
| `PacketCodec.PacketBuffer.Unmarshal` | packet/packet.go:185-240 | returns what the specification returns and leaves exactly the fields it read, also when the authenticator then mismatches |
| `PacketCodec.DecodeLoop` | packet/packet.go:208-217 | the shrinking-slice loop returns the list, or the first error |
| `PacketCodec.MACInputCopy` | packet/packet.go:314-333 | the copy handed to HMAC has the value zeroed and, in a reply, the Request Authenticator put back |
| `PacketCodec.VerifyMAC` | packet/packet.go:288-346 | the Message-Authenticator check, with every error branch |
| `PacketCodec.HasMALoop` | protocol/verify.go:68-75 | true exactly when some attribute is a Message-Authenticator |
| `PacketCodec.Verify` | protocol/verify.go:46-63 | the four checks of a reply in their order, on a fresh packet |
| `Exchange.MarshaledDecodes` | packet/packet.go:64-139 | a marshaled packet decodes to the wire attributes with only the Message-Authenticator value filled in, for every digest |
| `Exchange.SignedPassesMACCheck` | packet/packet.go:288-346 | the HMAC Marshal writes is the one VerifyMessageAuthenticator recomputes from the finished packet |
| `Exchange.ReplyAccepted` | protocol/verify.go:46-63 | every marshaled reply with room for its signature is accepted by VerifyResponse under the Identifier and Request Authenticator it copied; its attributes come back, the Message-Authenticator value filled in |
| `Exchange.RequestAccepted` | packet/packet.go:185-240 | every marshaled request whose Message-Authenticator, if any, has at least 16 octets, and exactly 16 in a self-signed request, is accepted by Unmarshal with Authenticator equal to octets 4..20 and a Message-Authenticator that verifies; Requests.RequestPaddingIff says what happens to the others |
| `Exchange.ReplyDigest` | crypto/crypto.go:52-64 | the Response Authenticator is the digest of the whole reply with the Request Authenticator in its place, then the secret (section 3 of RFC 2865) |
| `Exchange.SelfSignedDigest` | crypto/crypto.go:74-86 | the Request Authenticator of an accounting, CoA or Disconnect request without Message-Authenticator is the digest of the request with zeros in its place, then the secret (section 3 of RFC 2866) |
| `Exchange.MessageAuthenticatorDigest` | packet/packet.go:118-129 | the value of the Message-Authenticator of every marshaled packet is the HMAC, under the secret, of the finished packet with that value zeroed and, in a reply, the Request Authenticator in place of the digest (section 3.2 of RFC 3579) |
| `Exchange.VerifiedDigest` | packet/packet.go:313-341 | the check of a packet without trailing octets passes exactly when the value is that HMAC |
| `Exchange.MarshaledHeader` | packet/packet.go:76-86 | octet 0 of what Marshal emits is the code, octet 1 the Identifier, octets 2 and 3 the length, most significant octet first, between 20 and 4096, or 4095 for accounting |
| `Wire.CodesByNumber` | types/types.go:39-58 | which code numbers are Access-Requests, self-signed requests and replies, and how long their packets may be |
| `Exchange.AcceptedIsMarshaled` | packet/packet.go:247-346 | an accepted reply without trailing octets and with at most one Message-Authenticator is, octet for octet, what Marshal emits for the packet it decodes to |
| `Exchange.AcceptedRequestIsMarshaled` | packet/packet.go:219-237 | a self-signed request accepted by Unmarshal, and by the Message-Authenticator check if it has one of standard size, is what Marshal emits for the packet it decodes to |
| `Session.RequestAcceptedIff` | packet/packet.go:185-240 | an accounting, CoA or Disconnect request without trailing octets passes both checks, with at most one standard Message-Authenticator, exactly when some packet marshals to it |
| `Session.AcceptedIff` | protocol/verify.go:46-63 | VerifyResponse accepts a buffer, with at most one full-size Message-Authenticator, exactly when some reply to the request marshals to it |
| `Session.UnsignedReplyAcceptedIff` | protocol/verify.go:57-61 | an accepted reply is accepted under every HMAC exactly when it carries no Message-Authenticator, whatever the request carried |
| `Session.HonestExchange` | server/helpers.go:17-31 | the server accepts the request, and the client accepts the reply made with ReplyWith, checking it against octets 4..20 of what it sent |
| `Session.OtherAnswerNeedsCollision` | crypto/crypto.go:52-64 | a client whose request had another authenticator accepts a reply only if the digest takes two different packets to the same value |
| `Session.PasswordReachesServer` | packet/packet.go:151-156 | a User-Password sent in an Access-Request is decrypted by the server, keyed with the Authenticator it decoded, to the password without its trailing NULs |
| `Session.RequestCarried` | packet/packet.go:185-217 | the server reads code, Identifier and every attribute of the packet the client built, passwords decryptable and all but Message-Authenticators unchanged |
| `Limits.PaddingIgnoredIff` | packet/packet.go:313-341 | a reply with octets behind its Length is sent and accepted for all digests exactly when it has no Message-Authenticator, because the HMAC covers the whole buffer; without such octets exactly when its signature leaves every length intact, that is with 16 octets or more, or with 15 and another attribute behind it |
| `Limits.RequestPaddingIgnored` | packet/packet.go:196-208 | a request is read the same whatever follows its Length |
| `Limits.SelfSignedAcceptedIff` | packet/packet.go:88-136 | of all packets it could send, a self-signed request is sent and accepted for all digests exactly when its Message-Authenticator, if any, has 16 octets; longer, shorter and panicking ones fail |
| `Limits.ReplyRecoveredIff` | packet/packet.go:126-129 | of all packets it could send, a reply is sent and recovered for all digests exactly when its Message-Authenticator has room for 16 octets; a shorter one is overwritten together with the attribute behind it, or makes Marshal panic |
| `Limits.SendablePanicsIff` | packet/packet.go:88-96 | the same for self-signed requests and replies, and the octets that are sent |
| `Limits.ReplyBoundToRequestIff` | crypto/crypto.go:52-64 | a reply is accepted for all digests exactly by the client whose Request Authenticator it was made for, given that its signature leaves every length intact |
| `Requests.AccessRecoveredIff` | packet/packet.go:126-129 | of all packets that pass the guards of Marshal, an Access-Request is sent and reaches the server with its attributes, passwords hidden, for all digests exactly when its Message-Authenticator has room for 16 octets; a shorter one is overwritten together with the attribute behind it, or makes Marshal panic |
| `Requests.RequestPaddingIff` | packet/packet.go:288-346 | of all packets that pass the guards of Marshal, a request of any kind is sent and passes Unmarshal and the Message-Authenticator check for all digests, with any octets behind its Length, exactly when it has no Message-Authenticator; without such octets exactly when that has 16 octets, or, in an Access-Request, 16 or more, or 15 and another attribute behind it |
| `Requests.AcceptedAccessIsMarshaled` | packet/packet.go:185-240 | an Access-Request without trailing octets whose passwords are 16, 32, ... or 128 octets long and whose only Message-Authenticator, if any, verifies is, octet for octet, what Marshal emits for the packet with the passwords decrypted |
| `Requests.AccessAcceptedIff` | packet/packet.go:185-240 | such an Access-Request passes both checks, with at most one full-size Message-Authenticator, exactly when some packet marshals to it |
| `Panics.MarshalPanicsIff` | packet/packet.go:64-139 | whatever the digests, a packet that passes the guards on secret, code, values and total length makes Marshal index out of range exactly when fewer than 18 octets are left from its Message-Authenticator on, and marshals exactly when not; every packet is covered, hidden passwords included |
| `Panics.EmptyMAPanics` | packet/packet.go:88-96 | an empty Message-Authenticator and nothing else is such a packet, under every code |
| `Panics.CheckPanicsIff` | packet/packet.go:256-300 | called on their own, the two checks panic exactly on a Length below 20, the first only for a response code |
| `Panics.ReadersNeverPanic` | protocol/verify.go:46-63 | neither Unmarshal nor VerifyResponse panics on any buffer |
| `Refusals.FirstOffence` | packet/packet.go:150-171 | a list that cannot be sent is refused for its first offending attribute: a password over 128 octets, a value over 253, or a second Message-Authenticator |
| `Refusals.MarshalRefusedIff` | packet/packet.go:65-80 | each error of Marshal comes exactly when its guard is the first to fail: empty secret, unknown code, offending attribute, total length |
| `Refusals.UnmarshalRefusedIff` | packet/packet.go:185-240 | the guards of Unmarshal, in their order and by number, and the error each one gives |
| `Refusals.MACRefusedIff` | packet/packet.go:288-346 | the errors of the Message-Authenticator check, told apart by length, presence, room and value |
| `Refusals.ResponseRefusedIff` | protocol/verify.go:46-63 | VerifyResponse gives the error of the first of its four checks that fails |
| `Refusals.ExtendedRefusedIff` | packet/extended.go:125-156 | each error of UnmarshalExtended exactly, by the octets that cause it |
| `Refusals.TunnelRefusedIff` | crypto/tunnel.go:82-95 | a tunnel password is refused exactly for an empty secret or more than 239 octets, and an MPPE key likewise, with an error of its own |
| `Chain.UnhideHide` | crypto/crypto.go:162-182 | block decryption inverts the encryption chain for every digest, secret, seed and aligned plaintext |
| `Chain.HideUnhide` | crypto/crypto.go:130-157 | encryption inverts decryption on every aligned ciphertext |
| `Chain.BlockEquation` | crypto/crypto.go:130-157 | c(i) = p(i) xor H(secret + c(i-1)) for every block, with the seed in front of the first (section 5.2 of RFC 2865) |
| `Crypto.EncryptBlocks` | crypto/crypto.go:130-157 | the block loop computes the chain over the password padded with NULs to a whole number of blocks, at least one |
| `Crypto.EncryptPassword` | crypto/crypto.go:98-106 | empty secret and overlong password are refused in that order, everything else is encrypted |
| `Crypto.DecryptBlocks` | crypto/crypto.go:162-182 | the block loop computes the inverse chain |
| `Crypto.DecryptPassword` | crypto/crypto.go:111-123 | malformed lengths are refused, otherwise the chain is undone and the trailing NULs are cut off by the loop |
| `Crypto.TrimNulMeaning` | crypto/crypto.go:111-123 | what is cut off is exactly the trailing NULs |
| `Crypto.PasswordEquation` | crypto/crypto.go:98-157 | the password filled up with NULs to whole blocks, the first hidden under secret and Request Authenticator, every other one under secret and the block before it (section 5.2 of RFC 2865) |
| `Crypto.PasswordRoundTrip` | crypto/crypto.go:98-182 | a password of at most 128 octets becomes 16 to 128 octets and comes back without its trailing NULs |
| `Crypto.PasswordUnchangedIff` | crypto/crypto.go:98-182 | it comes back unchanged exactly when it does not end in NUL |
| `Tunnel.SaltedPaddingLength` | crypto/tunnel.go:115-119 | fewer than 16 octets, completing length octet and payload to whole blocks |
| `Tunnel.HideBlocks` | crypto/tunnel.go:131-151 | first block under MD5(secret + Request Authenticator + salt), every further block under the ciphertext before it |
| `Tunnel.UnhideBlocks` | crypto/tunnel.go:184-203 | the decrypting loop computes the inverse |
| `Tunnel.EncryptSaltedPasswordWithPadding` | crypto/tunnel.go:125-156 | salt, then the hidden length octet, payload and padding; the length octet keeps eight bits |
| `Tunnel.DecryptSaltedAttribute` | crypto/tunnel.go:172-211 | every refusal in its order, otherwise the payload named by the decrypted length octet |
| `Tunnel.SaltedRoundTripIff` | crypto/tunnel.go:125-211 | for every digest, secret, salt and aligned padding the payload comes back exactly when it is shorter than 256 octets |
| `Tunnel.SaltedFitsIff` | crypto/tunnel.go:57-63 | the hidden payload fits a 253-octet attribute value exactly up to 239 octets |
| `Tunnel.SaltedEquation` | crypto/tunnel.go:82-156 | the value is the salt, its top bit set and all others kept, and length octet, payload and padding, hidden block by block, the first under secret, Request Authenticator and salt (section 3.5 of RFC 2868) |
| `Tunnel.DecryptAcceptsIff` | crypto/tunnel.go:172-211 | decryption yields a payload exactly for the salted encryptions of that payload, with padding of any aligned length |
| `Tunnel.TunnelPasswordRoundTrip` | crypto/tunnel.go:82-95 | every accepted tunnel password makes an 18- to 242-octet value with a marked salt and is recovered |
| `Tunnel.TagRoundTripIff` | crypto/tunnel.go:216-238 | tags 1 to 31 are put in front and no others, and are read back exactly when they were written or the value does not itself start with 0x01..0x1F |
| `Tunnel.TunnelPasswordTagUnambiguous` | crypto/tunnel.go:233-238 | a Tunnel-Password, tagged or not, is never misread, because its salt has the top bit set |
| `Tunnel.TunnelIntegerRoundTripIff` | crypto/tunnel.go:244-268 | a tunnel integer comes back exactly when it is tagged or its high octet is no tag; otherwise it is refused |
| `Vendors.DecodeNewVSA` | vendors/vendors.go:30-86 | DecodeVSA reads vendor, type and value of NewVSA back, the value cut at 253 octets |
| `Vendors.MatchNewVSA` | vendors/vendors.go:94-103 | MatchVSA answers exactly for its own vendor |
| `Vendors.VendorSpecificIff` | packet/attribute.go:117-124 | a value is a vendor, most significant octet first, and at least one octet of data, exactly when NewVendorSpecific of Type 26 writes it |
| `Vendors.VSAOverTheWireIff` | vendors/vendors.go:30-42 | a vendor value crosses MarshalBinary and UnmarshalAttribute whole exactly up to 247 octets |
| `Vendors.DecodeVSAIff` | vendors/vendors.go:56-86 | DecodeVSA accepts exactly a Vendor-Id, one vendor attribute and any trailer, and says which |
| `Vendors.DecodeVSAErrsIff` | vendors/vendors.go:44-86 | the error promised for attributes other than Type 26 comes, for every type, exactly when the value has fewer than 6 octets, or its sixth is below 2 or above what is left; a User-Password holding a vendor value is accepted |
| `Vendors.MPPEKeySurvivesWire` | vendors/microsoft/microsoft.go:142-172 | a session key of at most 239 octets fits an attribute of vendor 311, type 16 for NewMPPESendKey and 17 for NewMPPERecvKey, and is decrypted from the wire unchanged |
| `Vendors.DecryptMPPEKeyIff` | vendors/microsoft/microsoft.go:166-179 | an attribute yields a key exactly when it is Microsoft's, of type 16 or 17, and its value decrypts to that key |
| `Extended.UnmarshalPiece` | packet/extended.go:125-169 | one fragment with any flags is read back, and ExtendedMore says whether its top flag was set |
| `Extended.ExtendedRoundTripIff` | packet/extended.go:90-156 | a single attribute round-trips exactly up to 251 octets (Type 242) or 252 (the others); at 253 it marshals but its Length octet is 0 and it does not parse |
| `Extended.ExtendedIsAttribute` | packet/extended.go:90-119 | up to those bounds the octets are those of an attribute whose value starts with the Extended-Type and, for Type 242, a zero flags octet |
| `Extended.MarshalExtendedFragments` | packet/extended.go:178-213 | the splitting loop emits the fragments of the specification, errors included |
| `Extended.FragmentHeader` | packet/extended.go:178-213 | octets 0 to 3 of fragment i: Type 242, the Length, the extended type, and a flags octet that is the More bit alone, or 0 in the last one |
| `Extended.UnmarshalExtendedReassembled` | packet/extended.go:221-256 | the reassembling loop terminates on every input and returns the value and remainder of the specification, or its error |
| `Extended.ReassembledIff` | packet/extended.go:221-256 | reassembly of Type 242 succeeds exactly on a chain of fragments of one Extended-Type, all but the last carrying More, followed by the returned remainder; the value is their concatenation |
| `Extended.BrokenChainRefused` | packet/extended.go:238-252 | fragments that all carry More are refused when nothing, another attribute or something unreadable follows, each with its error |
| `Extended.FragmentRoundTripIff` | packet/extended.go:178-256 | reassembling the emitted octets before any trailer returns attribute and trailer exactly for all Type 242 values and for the others up to 252 octets |
| `Extended.FewestFragments` | packet/extended.go:189-212 | no chain carries the value in fewer fragments than are emitted |
| `Extended.FragmentsAreAttributes` | packet/extended.go:174-177 | the emitted octets are max(1, ceil(n/251)) attributes of at most 255 octets each, as the attribute loop of a packet reads them |
| `Dedup.Deduplicator.constructor` | server/dedup.go:55-63 | an empty table; a TTL that is not positive becomes five seconds |
| `Dedup.Deduplicator.EvictExpiredLocked` | server/dedup.go:150-163 | in whatever order the map is walked, exactly the expired entries leave the table and their open channels are closed |
| `Dedup.Deduplicator.Seen` | server/dedup.go:74-89 | evicts, then reports a live entry or creates one that expires ttl after the clock reading |
| `Dedup.Deduplicator.Store` | server/dedup.go:96-110 | a copy of the reply goes to the entry its key finds, whose channel is closed unless it was; without an entry nothing changes |
| `Dedup.Deduplicator.Lookup` | server/dedup.go:115-128 | returns the reply of the entry its key finds, once that entry is done |
| `Dedup.Deduplicator.Cleanup` | server/dedup.go:134-138 | evicts and nothing else |
| `Dedup.DuplicateIff` | server/dedup.go:74-84 | a key is a duplicate exactly when it has an entry that has not expired |
| `Dedup.SeenIff` | server/dedup.go:74-89 | Seen keeps the unexpired entries as they are, drops all others, and adds an open, empty one that lives for ttl |
| `Dedup.StoreIff` | server/dedup.go:96-110 | Store fills and closes the entry of its key and touches no other |
| `Dedup.TtlIff` | server/dedup.go:13-63 | the default life of an entry is five seconds |
| `Dedup.KeysCollideIff` | server/dedup.go:167-176 | two requests share a key exactly when their Identifiers and the first 128 octets of their addresses agree |
| `DedupRuns.StepKeepsInv` | server/dedup.go:74-163 | every atomic step of any handler keeps: channels closed at most once, closed exactly when answered or evicted, entries off the table only after their time, one owner per entry |
| `DedupRuns.RunGrows` | server/dedup.go:74-163 | over any run the clock never falls, entries keep key and expiry, and recorded replies never change |
| `DedupRuns.AtMostOnce` | server/server.go:221-234 | over every interleaving, of two handler starts for one key the second is at least ttl after the clock reading of the first |
| `DedupRuns.StartsApart` | server/server.go:221-234 | when no clock reading is older than d, two handler starts for one key are at least ttl - d apart and in order |
| `DedupLimits.AtMostOncePerWindowIff` | server/dedup.go:74-89 | over all runs whose clock readings are at most d old, a window of length w holds at most one handler start for a key exactly when w is at most ttl - d, or not positive when d exceeds ttl |
| `DedupRuns.StoreKeepsRepliesIff` | server/dedup.go:96-110 | a Store keeps every reply with the entry it belongs to exactly when the entry found by key is the handler's own, or has the same reply |
| `DedupRuns.DuplicateGetsOriginalReply` | server/dedup.go:115-128 | when every Store comes before the eviction of its entry, whatever a duplicate is sent is what the handler of its entry marshaled |
| `DedupRuns.PromptDuplicateGetsOriginalReply` | server/dedup.go:96-128 | the same when every handler stores less than ttl after the clock reading of the Seen that started it |
| `DedupLimits.RepliesRightIff` | server/dedup.go:96-110 | over all runs whose handlers store less than d after the clock reading of their Seen, every entry holds only what its own handler marshaled exactly when d is at most ttl |
| `DedupRuns.WaiterReleasedIff` | server/dedup.go:115-128 | in every reachable state a waiting Lookup may go on exactly when its entry is answered or evicted, and its channel was closed at most once |
| `DedupRuns.EvictionReleases` | server/dedup.go:150-163 | the first eviction past the expiry of its entry releases a waiter, whether Cleanup or the Seen of any request evicts |
| `DedupRuns.CleanupReleases` | server/dedup.go:134-163 | a Cleanup is always possible and, past the expiry, lets the waiter go on |
| `DedupRuns.StuckIff` | server/dedup.go:67-128 | a request that is not finished is held up exactly by waiting for an entry that is still open; a late Store and a Lookup whose entry is gone go ahead |
| `DedupRuns.FinishesIff` | server/server.go:220-257 | every step of a request takes it nearer to its end and moves no other one, and it ends, with or without octets sent, in exactly four ways |
| `DedupLimits.StaleReadingRunsTwice` | server/dedup.go:74-84 | a run in which the clock, read before the mutex is taken, is stale by ttl, and two handlers for one key start at the same instant |
| `DedupLimits.LateStoreLeaks` | server/dedup.go:96-109 | a run in which a handler outlives its entry and a duplicate of the next request is sent its reply |
| `Server.HandleRequest` | server/server.go:203-255 | Unmarshal, Seen, handler, Marshal, Store, with or without a table: how far the request gets, a fresh reply apart from a cached one and a panic of Marshal apart from its errors, and the table it leaves |
| `Server.FreshHandledIff` | server/server.go:229-252 | a fresh request comes to each outcome exactly by what the handler says and what its reply marshals to |
| `Server.RepeatHandledIff` | server/server.go:217-227 | a repeated one exactly by what its live entry holds: still open, closed without a reply, or a reply |
| `Server.TableAfterIff` | server/server.go:221-255 | the table behind a request: untouched by a packet that does not unmarshal, evicted by a repeated one, with a new entry for a fresh one that holds the reply exactly when there is one |
| `UdpServer.HandleOne` | server/server.go:203-263 | what the sender of a datagram gets: the reply, nothing, a wait for another handler, or the end of the process |
| `UdpServer.SentIff` | server/server.go:217-257 | octets are sent exactly when they are what the reply to a fresh request marshals to, or what the done entry of a repeated one holds |
| `UdpServer.BlockedIff` | server/server.go:221-226 | the handling waits exactly for a repeated request whose entry is still open |
| `UdpServer.NothingIff` | server/server.go:206-252 | nothing comes back exactly for an unreadable packet, a fresh request without a reply that can be sent, and a repeated one whose entry closed without a reply |
| `UdpServer.DiedIff` | server/server.go:245-252 | the process ends exactly on a fresh request whose reply passes the guards of Marshal and has fewer than 18 octets from its Message-Authenticator on |
| `UdpServer.DatagramAnswered` | server/server.go:203-263 | the sender of an honest fresh request gets octets that its own VerifyResponse accepts, or nothing where the handler is silent |
| `UdpServer.DatagramRetransmitted` | server/server.go:217-227 | a retransmission within ttl gets the same octets once more, whatever handler the server has by then |
| `UdpServer.SilentRetransmitted` | server/server.go:217-244 | a retransmission of a request the handler was silent about waits |
| `Server.PanickedIff` | server/server.go:238-245 | the process ends exactly on a fresh request to which the handler replies with a packet that passes the guards of Marshal and has fewer than 18 octets from its Message-Authenticator on |
| `Server.AnsweredFromEntry` | server/server.go:217-227 | whatever carries the Identifier of an answered request from the same address within ttl gets the identical octets out of the table |
| `Server.RetransmissionGetsSameReply` | server/server.go:217-227 | a retransmission within ttl of an answered request gets the identical octets out of the table, whatever a second handler run would have said |
| `TcpServer.HandleConn` | server/server.go:387-461 | the connection loop writes the replies of the specification, with or without duplicate detection, and stops at the first framing error, unreadable packet, handler error, failed Marshal or failed write of a fresh reply; a failed write of a cached reply does not stop it |
| `TcpServer.UnreadableCloses` | server/server.go:398-414 | a stream that does not start with a framed packet and a packet that does not unmarshal close the connection |
| `TcpServer.FreshServed` | server/server.go:427-459 | a fresh request, by what the handler says: silence leaves the connection open, an error and a reply that cannot be marshaled or written close it, a reply goes out |
| `TcpServer.RepeatServed` | server/server.go:417-425 | a repeated request, by what its entry holds: a reply goes out if it can, and only an open entry stops the connection |
| `TcpServer.ServedAll` | server/server.go:397-460 | honest requests in front of any tail are answered in order, those the handler is silent about skipped, and the tail is served with the table they leave; with duplicate detection for pairwise different Identifiers that are no duplicates at their time |
| `TcpServer.PipelinedConversation` | server/server.go:397-460 | such requests written back to back are answered one by one and in order, silent ones skipped, with or without duplicate detection; the replies, read back from the stream, each verify against their own request |
| `TcpServer.ReusedIdentifier` | server/server.go:417-425 | with duplicate detection, a second request with the Identifier of the first, repeated or different, is answered within ttl with the reply to the first, and what follows is served as usual, even when the write of that second answer fails |
| `TcpServer.FailedWriteCloses` | server/server.go:453-458 | after a failed write of a fresh reply nothing that follows on the connection is served |
| `Identifiers.IdentifierPool.constructor` | protocol/identifier.go:46-52 | all 256 Identifiers in ascending order |
| `Identifiers.IdentifierPool.Acquire` | protocol/identifier.go:56-66 | the oldest token, or the cancellation error with the pool untouched |
| `Identifiers.IdentifierPool.Release` | protocol/identifier.go:71-81 | appends the token, or drops it when the pool is full |
| `Identifiers.StepKeepsInv` | protocol/identifier.go:45-81 | acquiring, and releasing what was acquired, keep queue plus requests in flight a permutation of 0..255 |
| `Identifiers.NoSharedIdentifier` | protocol/identifier.go:33-42 | at no point of any run of any number of callers do two requests in flight share an Identifier |
| `Identifiers.ReleaseNeverDrops` | protocol/identifier.go:68-81 | in every run Release takes its first branch |
| `Identifiers.BlockedIff` | protocol/identifier.go:36-38 | Acquire blocks exactly when all 256 Identifiers are in flight |
| `Identifiers.StrayReleaseHarmlessIff` | protocol/identifier.go:68-70 | releasing what was not acquired keeps the permutation exactly when nothing is in flight |
| `Backoff.Attempts` | protocol/retransmit.go:90-95 | at least one transmission, and MaxAttempts of them where it is positive |
| `Backoff.DelayAsIntendedIff` | protocol/retransmit.go:74-84 | the wrapping shift and cap give min(Initial * 2^k, Max) exactly when the shift does not overflow or the cap hides it |
| `Backoff.BackoffCorrectIff` | protocol/retransmit.go:74-84 | all delays are as documented exactly when the first 64 are |
| `Backoff.BackoffAsDocumented` | protocol/retransmit.go:74-84 | with 2^j dividing Initial and (Initial / 2^j) * Max below 2^63, every delay is min(Initial * 2^k, Max), positive for a positive Max, and delays never shrink |
| `Backoff.DefaultBackoff` | protocol/retransmit.go:34-41 | the default policy meets that bound with j = 10: 2, 4, 8, then 16 seconds for good |
| `Backoff.EdgeDelays` | protocol/retransmit.go:74-84 | a negative attempt counts as the first, an Initial of zero gives Max, and the first delay is Initial capped at Max |
| `Backoff.WrappedDelay` | protocol/retransmit.go:78-81 | a policy outside the bound whose third delay wraps to four nanoseconds |
| `Retransmission.ExchangeWithRetransmit` | protocol/client.go:480-550 | against every transport and cancellation, the loop returns the outcome and leaves the log of sends, deadlines and pauses of the specification |
| `Retransmission.SendsIdenticalBytes` | protocol/client.go:466-468 | every transmission is the identical octets, and there are at most Attempts of them |
| `Retransmission.RepliedIff` | protocol/client.go:526-544 | a packet is returned exactly when it is the first reply that verifies, after attempts that brought no acceptable reply, no cancellation and no end of the context |
| `Retransmission.NetFailureIff` | protocol/client.go:486-525 | a network error is returned exactly when it interrupts a pause, cancels an attempt, is the end of the context, or was the last attempt lost |
| `Retransmission.RefusedIff` | protocol/client.go:530-548 | a refusal is returned exactly when the last attempt brought it and nothing ended the exchange before |
| `Retransmission.LogIff` | protocol/client.go:486-515 | every event of the log: transmissions at even places, one pause between two of them, a deadline of the next delay on all but the last; and exactly how far the log reaches |
| `Retransmission.DocumentedLog` | protocol/retransmit.go:70-84 | with a well-scaled policy, deadline and pause of attempt k are Initial doubled k times, capped at Max, and the last attempt has no deadline |
| `Retransmission.DefaultLog` | protocol/retransmit.go:34-41 | the default policy against a silent server: sends with 2 and 4 seconds, pauses of 2 and 4 seconds, and a third send without a deadline |
| `Retransmission.ExhaustedExchange` | protocol/client.go:515-548 | without interruption or acceptable reply exactly Attempts transmissions are made and the last error is returned |
| `Retransmission.RefusedReplyUsesAttempt` | protocol/client.go:526-544 | after a refused reply the request is sent again exactly when attempts are left and the pause is not interrupted; after the last attempt the refusal is returned |
| `Retransmission.NoResponseUnreachable` | protocol/client.go:546-549 | ErrNoResponse is never returned |
| `Retransmission.LossyExchangeSucceeds` | protocol/client.go:480-550 | however many attempts are lost or answered wrongly, one answer of the server is enough for its attributes to be returned |
| `Retransmission.RepliedWasMarshaled` | protocol/client.go:526-544 | a returned packet with at most one Message-Authenticator re-marshals to the answer it came from, octet for octet, if that had no trailing octets |
| `Client.WithIdentifier` | protocol/client.go:262-302 | build, marshal, exchange, check the reply code |
| `Client.Call` | protocol/client.go:248-458 | a call takes one Identifier and gives it back on every way out; it returns and sends what the specification says |
| `Client.RequestMAIff` | protocol/client.go:267-271 | a Message-Authenticator is carried exactly when wanted or brought, never a second one; one that is added is 16 zeros in front of the caller's attributes |
| `Client.SignsIff` | protocol/client.go:552-562 | a Message-Authenticator is wanted for EAP, and for a CoA or Disconnect request that asks for one or leaves it to a Client that does |
| `Client.CallSendsKind` | protocol/client.go:281-427 | octet 0 of all that is sent is 1, 4, 43 or 40 by the kind of the call, octet 1 the acquired Identifier, and the reply codes accepted are exactly those that answer that octet |
| `Client.CallCarriesRequest` | protocol/client.go:248-287 | the server reads code, Identifier, the caller's authenticator or a random one where that is zero, and the caller's attributes in order behind the added Message-Authenticator, which verifies |
| `Client.CallOutcomeIff` | protocol/client.go:286-302 | for every kind the reply is checked against octets 4..20 of what was sent; the call ends as its exchange does, except that a packet which does not answer the code that was sent is refused |
| `Client.CallReturnsAnswer` | protocol/client.go:288-302 | a returned packet has the acquired Identifier and a code that answers octet 0 of what was sent |
| `Client.CallReachesServer` | protocol/client.go:248-303 | client, lossy network, server and back: the first attempt answered by the server decides the call, with the attributes the server set, given a Message-Authenticator brought by the caller has room for its signature, and the standard size in a self-signed request |
| `Loader.FileParser.ReadLine` | dictionary/parser/parser.go:162-202 | one line adds what its directive says, under the vendor of the moment, and leaves the include stack as it was |
| `Loader.LoadFile` | dictionary/parser/parser.go:113-125 | terminates on every finite file map, cyclic ones included; the path is off the stack again however it ends |
| `Loader.ReadAll` | dictionary/parser/parser.go:130-148 | the line loop accumulates the lines of the file in order, or stops at the first error |
| `Includes.ParseSucceedsIff` | dictionary/parser/parser.go:113-148 | parsing succeeds exactly when every include path from the root ends in a file that opens, has only well-formed lines and does not occur earlier on that path |
| `Includes.ErrorHasPath` | dictionary/parser/parser.go:113-125 | every error names the end of an include path at which that very fault lies |
| `Includes.ReportedCycleIsReal` | dictionary/parser/parser.go:114-116 | a reported cycle is one: some include path visits the named file twice |
| `Includes.ParseResultIsSplice` | dictionary/parser/parser.go:231-254 | a successful parse returns the in-order splice of all files |
| `Includes.ParsedContents` | dictionary/parser/parser.go:256-367 | its attributes are, in the order of the lines read, those of the ATTRIBUTE lines, each under the vendor above it in its own file, its values those of the VALUE lines and its vendors those of the VENDOR lines |
| `Includes.VendorAboveIff` | dictionary/parser/parser.go:184-186 | the vendor of a line is the one whose BEGIN-VENDOR is not followed by another one or an END-VENDOR before it |
| `Includes.TracedIff` | dictionary/parser/parser.go:231-254 | the lines read are exactly those at the end of some include path |
| `Parser.NormalizeValueType` | dictionary/parser/parser.go:296-318 | exactly the listed tokens become string, ipaddr and octets, four more stay what they are, and every other token becomes raw |
| `Parser.HandleAttribute` | dictionary/parser/parser.go:256-279 | an ATTRIBUTE line yields the attribute of the specification, or is refused |
| `Parser.FlagsAcceptedIff` | dictionary/parser/parser.go:323-339 | the flags are accepted exactly when every encrypt= flag holds a number |
| `Parser.FlagsMeaning` | dictionary/parser/parser.go:323-339 | accepted flags set the tag mark exactly when has_tag occurs, take the last encrypt= flag, and change nothing else |
| `Parser.LastEncryptIff` | dictionary/parser/parser.go:323-339 | the encryption of an attribute is the number behind the last flag that starts with encrypt= |
| `Parser.AttributeLine` | dictionary/parser/parser.go:256-279 | every attribute read has the first word as its non-empty name and a known type |
| `Parser.AttributeIff` | dictionary/parser/parser.go:256-279 | which lines are an ATTRIBUTE, and with which name, number up to 255, type, tag mark and encryption, word by word |
| `Parser.DirectiveIff` | dictionary/parser/parser.go:341-375 | the same for VALUE, VENDOR, $INCLUDE, BEGIN-VENDOR and END-VENDOR lines |
| `Parser.MalformedIff` | dictionary/parser/parser.go:162-202 | exactly which lines are refused, and which are skipped |
| `Dictionary.Registry.Register` | dictionary/dictionary.go:136-158 | refuses the empty name, otherwise replaces what the two maps said about the Type and the Name |
| `Dictionary.Registry.Lookup` | dictionary/dictionary.go:162-167 | returns a definition exactly when the dictionary holds it under that Type |
| `Dictionary.Registry.LookupName` | dictionary/dictionary.go:171-176 | returns a definition exactly when the dictionary holds it under that Name |
| `Dictionary.Registry.RegisterFromDict` | dictionary/register.go:19-40 | registers entry after entry up to the first refused one, and reports that one and why |
| `Dictionary.Registry.Size` | dictionary/dictionary.go:179-183 | counts both maps: as many Types as Names are registered |
| `Dictionary.RegisteredConsistent` | dictionary/dictionary.go:142-156 | a registration keeps byType and byName mutually inverse |
| `Dictionary.RegisteredHas` | dictionary/dictionary.go:142-156 | a registration adds its definition and removes exactly those that share its Type or its Name |
| `Dictionary.LastWriteWins` | dictionary/register.go:11-14 | after any list of registrations an entry is there exactly when no later one shares its Type or Name, or it was there before and none in the list does |
| `Dictionary.SizeIsSurvivorCount` | dictionary/register.go:11-40 | both maps of a fresh dictionary hold as many entries as definitions survive |
| `Dictionary.ParsedFilesRegister` | dictionary/register.go:15-40 | every dictionary file that parses registers completely |
| `Dictionary.TokenTypeIff` | dictionary/register.go:42-70 | which runtime type the type token of an ATTRIBUTE line becomes |
| `Dictionary.DefsOfIff` | dictionary/register.go:19-40 | the entries registered are those in front of the first one without a name or with an unknown type |
| `Dictionary.LoadedIff` | dictionary/register.go:19-40 | after loading, the dictionary holds exactly the entries with the last word on their Type and Name, with their type, encryption and tag mark |
| `Dictionary.LoadedFileIff` | dictionary/register.go:11-40 | from the files to the dictionary: it holds exactly what the ATTRIBUTE lines read for a file say, the last word on each Type and Name |
| `Framing.Conn.ReadFull` | transport/framed.go:34-46 | whatever the pieces, returns the next octets and leaves the rest, or uses the stream up |
| `Framing.ReadFramedStream` | transport/framed.go:27-52 | reads what the specification of one read says and leaves what it leaves |
| `Framing.ReadPacket` | transport/tcp.go:124-164 | the same, so both readers agree on every stream |
| `Framing.ReadNextIff` | transport/framed.go:101-118 | a read returns a packet and a rest exactly when the stream is a well-framed packet followed by that rest |
| `Framing.ReadErrsIff` | transport/tcp.go:275-289 | a packet counts as malformed exactly when its Length is out of bounds; a stream that ends inside a packet counts as closed |
| `Framing.StreamReadBackIff` | transport/framed.go:27-52 | reading a concatenation until it ends returns exactly its parts, when and only when each is well framed |
| `Framing.MarshaledIsFramed` | transport/framed.go:101-118 | every output of Marshal passes the length check of the readers |
| `Framing.MarshaledStreamReadBack` | transport/tcp.go:124-164 | any marshaled packets written one after the other are read back one by one |
| `MSCHAP.Utf16LE` | crypto/mschapv2.go:225-246 | the loop appends the one or two units of every character |
| `MSCHAP.Utf16Iff` | crypto/mschapv2.go:225-246 | the output and only the output decodes (section 2.2 of RFC 2781) to the text, for every sequence of Unicode scalar values |
| `MSCHAP.Utf16Injective` | crypto/mschapv2.go:225-246 | two texts never share an encoding |
| `MSCHAP.Utf16Units` | crypto/mschapv2.go:225-246 | a character is one unit, or a high and a low surrogate that add up to it, low octet first |
| `MSCHAP.ExpandDesKey` | crypto/mschapv2.go:200-221 | the shifts and masks, and the shift in place, compute the expanded key |
| `MSCHAP.ExpandedIff` | crypto/mschapv2.go:194-221 | the expanded key is the one string of eight octets with zero low bits whose top seven bits, in order, are the 56 bits of the input |
| `MSCHAP.ExpandInjective` | crypto/mschapv2.go:200-221 | distinct inputs give distinct keys |
| `MSCHAP.DesKeysInjective` | crypto/mschapv2.go:168-176 | the three DES keys determine the 16-octet hash |
| `MSCHAP.DesKeysBits` | crypto/mschapv2.go:168-176 | read in order, the 168 bits of the three DES keys are the 128 bits of the hash and 40 zeros (section 8.7 of RFC 2759) |

## Left out

- MD5, MD4, SHA-1, HMAC and DES themselves, constant-time comparison and key derivation: external libraries; digests are arguments.
- Collision resistance and tampering: not provable for an arbitrary digest.
- Sockets, deadlines, TLS and DTLS, and read errors other than end of stream: input and output; a connection is its octets in arbitrary pieces.
- Failures of the random source, among them the branch that empties the padding (crypto/tunnel.go:104-106).
- Jitter (protocol/retransmit.go:85-86): floating point; the policy here has none.
- TcpServer.HandleConn: does not model other connections at work on the same table; a Lookup that would wait ends what is written here.
- UdpServer.HandleOne: does not model a failed send, because it changes nothing the model keeps.
- Dedup.Deduplicator.Lookup: does not model the wait itself, because a method body is one atomic step here; the wait is the step DoReceive of DedupRuns.
- Identifiers.IdentifierPool.Acquire: does not model blocking, because a call that blocks has not returned; BlockedIff says when that happens.
- Client.Call: does not model several callers at once, because the pool under all interleavings is the state machine of Identifiers; the default timeout of a call is part of the arbitrary cancellation.
- Parse from a reader, which refuses $INCLUDE, and ParseFiles, which concatenates the results of ParseFile.
- Cutting a line into words: stripComment, strings.Fields and the limit on line length; a line is its words here.
- Path cleaning and other file errors than a missing file; error texts and the chain of line numbers around an included error.
- Mutation of a definition through the reference Lookup returns, and the shared default dictionary.
- Packet.Add, Get, Set and Delete, typed accessors, builders, formatting, the other vendor packages and the code generator: easy members.
- hexUpper, stripDomain and the MS-CHAPv2 hash derivations: compositions of external digests.
