# MiniUPnP daemon: a verified model

This project models the parts of miniupnpd that decide something - who gets which external port and
for how long, who is told about it, what is printed, parsed, queued and sent - and proves that they
keep their promises over every input and every run. It is a model of the build for the ipfw firewall
without the SDN controller, with NAT-PMP, PCP and eventing enabled.

`dafny verify dfyconfig.toml` checks everything.

## Modules

| file | what it models |
|---|---|
| `Net.dfy` | integer widths, addresses, decimal numbers, string cutting |
| `Permissions.dfy` | the permission list and the bitmap of permitted external ports (upnppermissions.c) |
| `MappingTable.dfy` | the redirect table as its users see it |
| `Backend.dfy` | the ipfw kernel ruleset and the private list of descriptions beside it (ipfw/ipfwrdr.c) |
| `Redirect.dfy` | adding, renewing, deleting and expiring mappings (upnpredirect.c) |
| `PortScan.dfy`, `NatPmp.dfy`, `Pcp.dfy` | the cyclic port scan and the two protocols that use it (natpmp.c, pcpserver.c) |
| `NatPmpWire.dfy` | the packets of NAT-PMP, from request bytes to response bytes (natpmp.c; RFC 6886, section 3) |
| `OutwardSearch.dfy` | the outward port search of AddAnyPortMapping (upnpsoap.c) |
| `MappingRuns.dfy` | all entry points to the one table as a state machine |
| `Grants.dfy` | what a request does to its own mapping and to the others |
| `Leases.dfy` | when mappings end, who can renew them, what upnp_redirect answers |
| `Events.dfy` | GENA subscribers and notifications (upnpevents.c; UPnP Device Architecture 1.1, section 4) |
| `StrBuf.dfy`, `DescGen.dfy` | the growing buffer and the explicit-stack XML printer (upnpdescgen.c) |
| `NameValue.dfy`, `MiniXml.dfy` | the XML scanner and its callbacks (minixml.c, upnpreplyparse.c) |
| `XmlRoundTrip.dfy`, `DescRoundTrip.dfy` | printing a tree or a description and reading it back |
| `XmlBehind.dfy` | when the scanner depends on the character behind the document |
| `AsyncSend.dfy`, `MainLoop.dfy` | the timed send queue and the timeout of the main loop (asyncsendto.c, miniupnpd.c) |
| `HttpHeaders.dfy`, `Http.dfy` | an HTTP connection: headers, body, response (upnphttp.c) |
| `HttpWritten.dfy` | requests as they are written, and what the daemon makes of them |
| `Stun.dfy` | decoding a STUN response in place (upnpstun.c; RFC 5389) |
| `CodeLength.dfy` | the 7-bit length code and the MiniSSDPd message (codelength.h, minissdp.c) |

State that the daemon updates in place is a class with the same fields, and each of its methods is
proved to compute a function of the old state; the lemmas are about those functions. Answers of the
kernel, of sockets and of the clock are parameters, so every statement holds for all of them.

## Where the code and its promises part

The model follows the code. Each of these is a lemma or a contract with its exact condition:

- The renewal branch of `upnp_redirect` does not move `nextruletoclean_timestamp`
  (miniupnpd/upnpredirect.c:440-461): `RenewalCoveredIff`, `RenewalEscapesCleaning`. It also carries
  its update out twice, and can lose the mapping when the firewall accepts only half of it:
  `RenewalLosesIff`.
- NAT-PMP answers success when the client's older mapping could not be deleted, and keeps the old
  lease (miniupnpd/natpmp.c:378-381): `NatPmp.SuccessGrants`.
- PCP moves to another port under PREFER_FAILURE when the port is in use
  (miniupnpd/pcpserver.c:947-958): `PreferFailureKeepsPort`, `PreferFailureMovesOn`.
- A PCP deletion stops at the first mapping it names, although its comment speaks of all
  (miniupnpd/pcpserver.c:1097-1145): `DeletionRemovesAllIff`, `DeletionLeavesSecond`.
- A lease that ends beyond 32 bits of seconds ends 2^32 seconds early (miniupnpd/upnpredirect.c:442, 474):
  `LeaseEndsOnTime`.
- A variable change while a message is already written is not reported
  (miniupnpd/upnpevents.c:237): `VarChangeNotify`.
- The loop over the host of a callback URL does not stop at its end (miniupnpd/upnpevents.c:334-335): it stays
  inside exactly if there is a port or a path, or the host fills the buffer: `CallbackParts`.
- SEQ goes from 4294967295 to 0 (miniupnpd/upnpevents.c:531); section 4 of the UPnP Device
  Architecture 1.1 lets it go to 1. `Counting` says what the code does.
- A delayed packet can be stored with `tv_usec == 1000000` (miniupnpd/asyncsendto.c:143):
  `SendTimeIsExact`; it is never sent early for it, but the same value can reach select():
  `CheckQueue` and `PrepareSelect` say exactly when, `UnnormalHappens` gives a case.
- The main loop ignores the microseconds of the clock when it waits for a lease to end
  (miniupnpd/miniupnpd.c:2624-2628): `LeaseOvershootIff`, `LeaseOvershoots`.
- An empty `Content-Length` as the last header takes its number from the start of the body, as far as
  that has arrived (miniupnpd/upnphttp.c:241-244): `CuttingMattersIff`, `EmptyLengthSpills`.
- A Content-Length of 2^31 or more is cut to 32 bits, or taken as 0 (miniupnpd/upnphttp.c:244-248): `AnyNumberRead`.
- The STUN attribute loop does not skip padding, and goes on behind the end of the message to the end of
  the datagram (miniupnpd/upnpstun.c:308-389): `LayoutSeenIff`, `UnalignedIsLost`, `BehindIsTaken`. It also
  accepts type 0x8020, which is not in RFC 5389.
- A STUN error response is read like a success (miniupnpd/upnpstun.c:299): `GoodHeaderIff`.
- The XML scanner looks at the character behind the document, where the HTTP connection need not have put
  one (miniupnpd/minixml.c:195, miniupnpd/upnphttp.c:1090): `BehindMattersIff`, `StrayLtLooks`;
  `PairsIgnoreBehind` says what never depends on it.
- The XML scanner steps over the character behind an unquoted attribute value, be it '>'
  (miniupnpd/minixml.c:91-104): `AttributesRunIff`, `BareValueHidesLeaf`.

## Model

| member | source | states |
|---|---|---|
| Permissions.FirstMatchDecides | miniupnpd/upnppermissions.c:243-263 | For every rule list, the verdict of the first rule that matches (external port, address, internal port) is the answer of the list. |
| Permissions.NoMatchAccepts | miniupnpd/upnppermissions.c:243-263 | A request that no rule matches is accepted. |
| Permissions.SampleAccepts | miniupnpd/miniupnpd.conf:183-187 | Exactly which external port, client and internal port the sample rules of the configuration file let through. |
| Permissions.CheckRule | miniupnpd/upnppermissions.c:243-263 | The loop over the list returns exactly the first-match answer. |
| Permissions.BitWrite | miniupnpd/upnppermissions.c:281-299 | Setting or clearing bit k of a 32-bit word changes bit k and no other bit. |
| Permissions.WriteWord | miniupnpd/upnppermissions.c:286-291 | Writing a whole word gives its 32 ports the verdict and leaves every other port as it was. |
| Permissions.WriteBit | miniupnpd/upnppermissions.c:292-298 | Writing one bit gives its port the verdict and leaves every other port as it was. |
| Permissions.WriteRange | miniupnpd/upnppermissions.c:281-300 | The mixed word and bit writes of one rule overwrite exactly the ports eport_min..eport_max. |
| Permissions.PermittedExtPorts | miniupnpd/upnppermissions.c:265-305 | For every rule list, address and internal port, bit p of the finished array is the first-match answer for p, for all 65536 ports, although the rules are applied last to first. |
| Backend.IpfwBackend.AddDescTime | miniupnpd/ipfw/ipfwrdr.c:96-115 | The description and timestamp of a key are put at the head of the private list. |
| Backend.IpfwBackend.DelDescTime | miniupnpd/ipfw/ipfwrdr.c:118-135 | The first list element with the key, and only that one, is unlinked. |
| Backend.IpfwBackend.AddRedirectRule2 | miniupnpd/ipfw/ipfwrdr.c:157-211 | On success the rule is appended to the kernel ruleset with its description; the list and the ruleset keep the same keys exactly if the key was new; on failure nothing changes. |
| Backend.IpfwBackend.GetRedirectRule | miniupnpd/ipfw/ipfwrdr.c:216-283 | The lookup returns the rule of the key joined with the description and timestamp last stored for it, or nothing exactly if the key is absent. |
| Backend.IpfwBackend.GetRedirectRuleByIndex | miniupnpd/ipfw/ipfwrdr.c:352-422 | Index i gives the i-th mapping with its description cut to the caller's buffer, and fails exactly outside the table. |
| Backend.IpfwBackend.DeleteRedirectRule | miniupnpd/ipfw/ipfwrdr.c:285-320 | A deletion that the kernel accepts removes exactly the mapping of the key, with its description; otherwise the table is unchanged and -1 is returned. |
| Backend.IpfwBackend.UpdateDescTimestamp | miniupnpd/ipfw/ipfwrdr.c:481-490 | Description and timestamp of a present key are replaced and nothing else; the two lists keep the same keys exactly if the key was present. |
| Backend.IpfwBackend.UpdatePortmapping | miniupnpd/ipfw/ipfwrdr.c:492-548 | Delete and re-add with a new internal port: new state and result for each outcome of the two kernel calls, keys kept in step. |
| Backend.JoinAdd | miniupnpd/ipfw/ipfwrdr.c:157-211 | Adding a rule and its description keeps the same keys on both lists and appends one mapping to the joined table. |
| Backend.JoinRemove | miniupnpd/ipfw/ipfwrdr.c:285-320 | Removing a rule and unlinking its description removes that key, and nothing else, from the joined table. |
| Backend.RemoveKeepsKeys | miniupnpd/ipfw/ipfwrdr.c:304-313 | After a removal the kernel ruleset and the private list again hold the same keys, each once. |
| Backend.JoinRelabel | miniupnpd/ipfw/ipfwrdr.c:481-490 | Replacing a description in the private list changes the joined table at that key only. |
| Backend.RelabelKeepsKeys | miniupnpd/ipfw/ipfwrdr.c:481-490 | Replacing the description of a present key keeps the keys of both lists the same. |
| Redirect.Redirector.RedirectInternal | miniupnpd/upnpredirect.c:485-563 | A new mapping is appended and the next-lease cell becomes the earlier of its old value and the new timestamp; with port forwarding disabled or on a refused rule nothing changes and -1 is returned. |
| Redirect.Redirector.UpnpRedirect | miniupnpd/upnpredirect.c:340-480 | Result and new table for all outcomes: -3 not permitted, renewal of an own mapping with the same remote host, -2 taken, -4 in use, 0 or -1 for a new one. |
| Redirect.Redirector.RenewMapping | miniupnpd/upnpredirect.c:435-461 | The renewal branch, update carried out twice as in the source: new internal port, description and lease of that mapping; the next-lease cell is not touched. |
| Redirect.Redirector.DeleteRedir | miniupnpd/upnpredirect.c:664-692 | Deletes the mapping of the key if it is there and the firewall lets it go, and nothing else. |
| Redirect.NextLease | miniupnpd/upnpredirect.c:755-780 | The cell left by a pass is the earliest lease in the table that ends after now, or 0 if there is none. |
| Redirect.Redirector.ListRules | miniupnpd/upnpredirect.c:755-780 | First half of the pass: the list of rule states, last first, and the next lease to end. |
| Redirect.Redirector.RemoveExpired | miniupnpd/upnpredirect.c:808-823 | Second half, unlinking through the pointer-to-pointer while deleting: the table loses exactly the expired removable mappings, the list is exactly the rules alive. |
| Redirect.Redirector.RulesStateList | miniupnpd/upnpredirect.c:738-834 | A pass at time now deletes exactly the mappings with 0 < t <= now (as far as the firewall lets them go), resets the cell, and returns the survivors only if there are more than the target number. |
| Redirect.ExpireStep | miniupnpd/upnpredirect.c:808-823 | Deleting by key the entry reached from the end removes that entry and no other, whatever was deleted before. |
| OutwardSearch.RefusalChangesNothing | miniupnpd/upnpsoap.c:879-886 | The only results are 0, -1, -2, -3, -4; a refusal (-2, -3, -4) leaves the table unchanged; -3 is returned exactly for ports the bitmap skips. |
| OutwardSearch.OutwardOrder | miniupnpd/upnpsoap.c:863-886 | From any port in 1..65535 the search order holds every other non-zero port exactly once, nearest first, above before below. |
| OutwardSearch.CursorStep | miniupnpd/upnpsoap.c:867-876 | One turn of the eport_below/eport_above bookkeeping moves to the next port of that order. |
| OutwardSearch.Neighbours | miniupnpd/upnpsoap.c:861-886 | The bitmap-filtered loop ends, with the port, result and table of the unfiltered search. |
| OutwardSearch.AddAnyPort | miniupnpd/upnpsoap.c:850-887 | The requested port first, then its neighbours: same port, result and table as trying every port in outward order. |
| OutwardSearch.SearchResult | miniupnpd/upnpsoap.c:863-886 | A search ends with 1 exactly if all its ports are refused, and else with the first that is not. |
| OutwardSearch.NearestPortWins | miniupnpd/upnpsoap.c:850-895 | "No port maps available" exactly if every port 1..65535 is refused; otherwise the port granted is nearer (above before below) than any other that is not refused. |
| PortScan.CyclicVisitsAll | miniupnpd/natpmp.c:337-386 | The cyclic scan meets each of the 65535 non-zero ports once and only once. |
| PortScan.StopExists | miniupnpd/natpmp.c:337-386 | From wherever it has got to, the scan has a first port it does not pass over, or comes round. |
| PortScan.AllowedOnTheWay | miniupnpd/natpmp.c:340-357 | The any_eport_allowed flag speaks about all 65535 ports once the scan has come round. |
| PortScan.StopIsFirst | miniupnpd/natpmp.c:335-386 | Every port on the way from the first to the one the search stops at, upward and around, is blocked. |
| NatPmp.FindPort | miniupnpd/natpmp.c:337-386 | The loop stops at the first port permitted and either free or already mapped to the same client and internal port; 0 when it comes round, with the flag exact. |
| NatPmp.TakePort | miniupnpd/natpmp.c:371-400 | Taking the port: an own mapping is removed and added again; if its removal fails the loop ends with success and an unchanged table, as the source does. |
| NatPmp.CreateMapping | miniupnpd/natpmp.c:331-405 | The whole creating branch: table, cell and response as functions of the request and of what the firewall answers. |
| NatPmp.RefusalsAreExact | miniupnpd/natpmp.c:329-350 | "Not authorized" (2) exactly when no port at all is permitted (or the internal port is 0), "out of resources" (4) exactly when some is permitted but all are unavailable; the table stays as it was. |
| NatPmp.SuccessGrants | miniupnpd/natpmp.c:371-400 | After a success the port is permitted and leads to the client; the new lease is stored if and only if there was no older mapping, or it could be deleted, or it was the same. |
| NatPmp.SuccessIsFirst | miniupnpd/natpmp.c:335-386 | The port granted is the first acceptable one from the suggested port upward, cyclically. |
| NatPmp.SuggestedPortWins | miniupnpd/natpmp.c:333-386 | The client gets the port it suggests, or the one equal to its internal port, exactly if that is permitted, not in use, and free or its own. |
| NatPmp.PortsBetweenAreTaken | miniupnpd/natpmp.c:335-386 | Every port between the suggested and the granted one, upward and around, was not permitted, in use or led elsewhere. |
| NatPmp.RemoveMappings | miniupnpd/natpmp.c:288-328 | Walking the shrinking table by index and deleting by key gives the table and result code of the recursive description; the loop ends by the number of rules left to scan. |
| NatPmp.UnmapRemovesNamed | miniupnpd/natpmp.c:288-328 | The request succeeds exactly if the firewall lets go of every mapping it names, and then the table is the old one, in order, without exactly those mappings. |
| NatPmp.UnmapKeepsOthers | miniupnpd/natpmp.c:310-327 | Even when the firewall refuses, mappings the request does not name stay, in order. |
| NatPmp.UnmapIsExact | miniupnpd/natpmp.c:310-327 | With no deletion refused, what goes is exactly the client's mappings marked "NAT-PMP" that the request names by internal port and protocol, or all of them for internal port 0. |
| NatPmpWire.RequestReadsBack | miniupnpd/natpmp.c:278-281 | A request written as section 3.3 of RFC 6886 says is read as it was meant: ports, lifetime, and UDP (17) for opcode 1, TCP (6) for opcode 2. |
| NatPmpWire.ProcessPacket | miniupnpd/natpmp.c:219-407 | From the bytes of a packet to table and response bytes: discarded packets, unsupported versions and opcodes, the address request, mapping and unmapping. |
| NatPmpWire.OthersAnswered | miniupnpd/natpmp.c:236-266 | Which packets are answered, and byte for byte how those are that ask for no mapping: version, opcode, time, address, codes 1, 3 and 5. |
| NatPmpWire.MapResponseSays | miniupnpd/natpmp.c:245-407 | The response to a mapping request holds opcode + 128, code, internal port, external port and lifetime where section 3.3 of RFC 6886 has them. |
| NatPmpWire.DescriptionTexts | miniupnpd/natpmp.c:390-391 | The descriptions of two mappings, letter for letter. |
| NatPmpWire.GrantIsStored | miniupnpd/natpmp.c:331-405 | What stands in the table under the port that a granted request is answered with: the client, its internal port, any remote host, the NAT-PMP mark. |
| NatPmpWire.MapThenUnmap | miniupnpd/natpmp.c:288-401 | A packet that is granted a port and a later one with lifetime 0, by the same protocol and internal port or by internal port 0: the mapping is gone, the answer says success, and the mappings of all other clients stay, in order. |
| Pcp.ClampLifetime | miniupnpd/pcpserver.c:254-260 | 0 stays 0, a lifetime between the bounds is kept, one below or above becomes the bound. |
| Pcp.FindPort | miniupnpd/pcpserver.c:922-991 | The do/while loop stops at the first port not passed over; which error it ends with otherwise. |
| Pcp.CreateMap | miniupnpd/pcpserver.c:905-1003 | Result code, port and new table of a MAP request as a function of the request and of what the firewall answers. |
| Pcp.PreferFailureKeepsPort | miniupnpd/pcpserver.c:936-958 | With PREFER_FAILURE a success is on the suggested port if and only if that port is not (permitted and) in use by the gateway. |
| Pcp.PreferFailureMovesOn | miniupnpd/pcpserver.c:947-958 | A concrete strict request for a port in use that is granted the next one. |
| Pcp.RefusalsAreExact | miniupnpd/pcpserver.c:922-1002 | For every request, which error it gets and when: malformed exactly without a port; without PREFER_FAILURE "not authorized" exactly when no port is permitted and "no resources" exactly when all are unavailable or the firewall refuses the rule; with it never "not authorized", "cannot provide external" exactly when the first port not both permitted and in use is unavailable, "no resources" exactly when there is none or the firewall refuses the rule. |
| Pcp.SuccessGrants | miniupnpd/pcpserver.c:960-1002 | After a success the table holds exactly the mapping asked for - client, internal port, protocol, description, end of lease - on a permitted port not in use. |
| Pcp.SuggestedPortWins | miniupnpd/pcpserver.c:913-991 | Without PREFER_FAILURE the port suggested, or the one equal to the internal port, is granted only if, and tried whenever, it is permitted, not in use, and free or the client's own. |
| Pcp.PortsBetweenAreTaken | miniupnpd/pcpserver.c:922-991 | Every port between that one and the granted one, upward and around, was not permitted, in use, led elsewhere or was held by the firewall. |
| Pcp.HexText | miniupnpd/pcpserver.c:1223-1228 | Numbers as %08x prints them. |
| Pcp.DescriptionTells | miniupnpd/pcpserver.c:1223-1228 | A description is never cut, and two nonces have the same one only if they are equal. |
| Pcp.DeleteMap | miniupnpd/pcpserver.c:1091-1154 | The loop over all rules: new table and result code of a deletion. |
| Pcp.FirstMatchingIsFirst | miniupnpd/pcpserver.c:1108-1145 | The mapping a deletion looks at is the first one of the client, protocol and internal port. |
| Pcp.RemoveTakesFirst | miniupnpd/pcpserver.c:1108-1153 | A deletion removes that one mapping, in order, exactly if its description carries the client's nonce and the firewall lets it go; a wrong nonce is "not authorized" and removes nothing. |
| Pcp.OnlyNonceDeletes | miniupnpd/pcpserver.c:1091-1145 | A mapping created under a nonce is deleted by its client exactly with that nonce; with another the answer is "not authorized" (2) and nothing changes. |
| MappingRuns.AddKeeps | miniupnpd/upnpredirect.c:340-563 | An UPnP add or renewal keeps the keys unique, every mapping permitted and every port with its client; leases stay covered unless it is a renewal that ends before the cell. |
| MappingRuns.AddAnyKeeps | miniupnpd/upnpsoap.c:850-887 | The same for AddAnyPortMapping; leases stay covered exactly if what it does to the port its search ends at leaves them so. |
| MappingRuns.NatPmpMapKeeps | miniupnpd/natpmp.c:331-401 | The same for a NAT-PMP mapping request, and leases stay covered. |
| MappingRuns.PcpMapKeeps | miniupnpd/pcpserver.c:905-1003 | The same for a PCP MAP request, and leases stay covered. |
| MappingRuns.CleanKeeps | miniupnpd/upnpredirect.c:738-834 | A pass keeps the table sound; afterwards leases are covered exactly if nothing expired is left. |
| MappingRuns.StepKeeps | miniupnpd/upnpredirect.c:340-563 | Every step of any of the three protocols and of cleaning keeps: no two mappings share (external port, protocol), each is accepted by the permission list, no port changes its internal client; leases stay covered by the cell exactly if the step is not a renewal that leaves one uncovered. |
| MappingRuns.RunsAreSound | miniupnpd/upnpredirect.c:340-563 | The same over every interleaving of add, map, unmap, delete and expiry, of any length. |
| MappingRuns.RunsAreCovered | miniupnpd/upnpredirect.c:551-554 | Over every run whose renewals are covered and whose passes can delete, each lease t > 0 has 0 < nextruletoclean_timestamp <= t. |
| MappingRuns.RenewalCoveredIff | miniupnpd/upnpredirect.c:440-461 | After any answer to an add or renewal the leases are covered if and only if it was no permitted renewal, or its stamp is endless or no earlier than a cell that is set, or it changes the internal port and the firewall loses the mapping on the way or keeps the old one in both rounds. |
| MappingRuns.RenewalEscapesCleaning | miniupnpd/upnpredirect.c:440-461 | A concrete renewal of an endless mapping with a lease that the main loop never comes to clean. |
| MappingRuns.NothingExpiredAfterCheck | miniupnpd/miniupnpd.c:2616-2623 | After the main loop's check no mapping has expired, none alive is gone, and the cell is 0 or in the future. |
| Events.EventManager.CreateNotify | miniupnpd/upnpevents.c:242-295 | A notification and its subscriber point at each other and the notification is listed, or nothing changes. |
| Events.EventManager.AddSubscriber | miniupnpd/upnpevents.c:166-190 | The new subscriber is first on its list with its own service, SID and callback, no number given out and its first notification. |
| Events.EventManager.RenewSubscription | miniupnpd/upnpevents.c:192-209 | Only the timeout of the subscriber with that SID changes. |
| Events.EventManager.RemoveSubscriber | miniupnpd/upnpevents.c:211-228 | The subscriber with that SID leaves the list, and a notification in flight no longer refers to it; -1 exactly if there is none. |
| Events.EventManager.VarChangeNotify | miniupnpd/upnpevents.c:230-240 | Afterwards a subscriber of the service will report the change exactly if it had a message still to be written, or had none in flight and got a socket: a change during a written message is dropped. |
| Events.EventManager.NotifyConnect | miniupnpd/upnpevents.c:297-393 | Of a live subscriber host and port text are taken and the path points to where it begins in the callback; without one the notification ends in error. |
| Events.EventManager.ParseCallback | miniupnpd/upnpevents.c:313-354 | The two loops over the callback find host, port text and the beginning of the path as the pure description does. |
| Events.CallbackParts | miniupnpd/upnpevents.c:313-354 | For "http://host:port/path" the message path is exactly that path, or "/" exactly if there is none, and the Host text is host and port; when the loop over the host ends inside the URL. |
| Events.EventManager.Prepare | miniupnpd/upnpevents.c:395-481 | The message goes to the path and names the host of the live subscriber's callback, and takes its SID and SEQ, exactly once per notification; from then on the invariant keeps it so until the response. |
| Events.EventManager.Send | miniupnpd/upnpevents.c:483-509 | The bytes sent never exceed the message; the state changes once all are sent. |
| Events.EventManager.Recv | miniupnpd/upnpevents.c:511-532 | A response adds one to SEQ (modulo 2^32); anything else leaves it. |
| Events.EventManager.ProcessNotify | miniupnpd/upnpevents.c:534-573 | One round of the five-stage state machine; a SEQ is given out only out of the connecting state. |
| Events.Next | miniupnpd/upnpevents.c:534-573 | Only the transitions of the state machine occur, and a notification without subscriber does not get past connecting. |
| Events.NextIsExact | miniupnpd/upnpevents.c:483-573 | What leads to each state, exactly: everything sent, EAGAIN or EINTR, a response, a failure. |
| Events.EventManager.SelectFds | miniupnpd/upnpevents.c:575-606 | New notifications connect, and each open one is waited for to write or to read according to its state. |
| Events.EventManager.ProcessReady | miniupnpd/upnpevents.c:615-623 | Exactly the open notifications that are ready make one round. |
| Events.EventManager.Retire | miniupnpd/upnpevents.c:627-645 | A finished notification leaves its list and its subscriber; after an error the subscriber leaves too; nobody else changes. |
| Events.EventManager.RetireDone | miniupnpd/upnpevents.c:624-647 | Exactly the notifications in error or finished leave, and exactly the subscribers of those in error. |
| Events.EventManager.DropTimedOut | miniupnpd/upnpevents.c:648-659 | Exactly the subscribers timed out with nothing in flight leave. |
| Events.EventManager.ProcessFds | miniupnpd/upnpevents.c:608-660 | Who stays after a round, both directions; in every state subscriber and notification refer to each other, both listed, and the SEQs given out to each subscriber there has ever been are 0, 1, 2, ... modulo 2^32 without gap or repeat. |
| StrBuf.Buffer.AppendStr | miniupnpd/upnpdescgen.c:808-835 | The buffer holds exactly the concatenation and keeps room for the NUL; without memory it is unchanged. |
| StrBuf.Buffer.AppendChar | miniupnpd/upnpdescgen.c:840-860 | The same for one character. |
| StrBuf.Buffer.AppendInt | miniupnpd/upnpdescgen.c:864-888 | The decimal digits of the number, sign included, are appended; without more memory, as many as there is room for. |
| StrBuf.DigitsBackwards | miniupnpd/upnpdescgen.c:873-882 | The digits collected last first, read backwards, are the decimal representation. |
| DescGen.Push | miniupnpd/upnpdescgen.c:972-999 | Entering a node: its frame takes over exactly what is left of its serialisation, within the 16 places of the stack. |
| DescGen.Advance | miniupnpd/upnpdescgen.c:954-969 | Going on to the next child takes its serialisation out of what remains. |
| DescGen.Pop | miniupnpd/upnpdescgen.c:957-966 | Leaving a node prints its end tag and nothing else of what remains. |
| DescGen.Unwind | miniupnpd/upnpdescgen.c:950-970 | The inner loop closes the nodes that are done and finds the next element, with less left to print. |
| DescGen.PrintLeaf | miniupnpd/upnpdescgen.c:915-949 | A leaf with data is printed as an element with its text; one without is not printed. |
| DescGen.GenXML | miniupnpd/upnpdescgen.c:892-1002 | For every well-formed table of depth at most 16 the explicit-stack loop terminates and appends exactly the recursive serialisation of the tree. |
| DescGen.SampleDocument | miniupnpd/upnpdescgen.c:892-1002 | A small table printed letter for letter, for all settings: configId, random URL prefix, forced version 1. |
| DescGen.SerialIsRendered | miniupnpd/upnpdescgen.c:892-1002 | The serialisation is the rendering of a list of start tags, texts and end tags. |
| DescGen.TokensAreBalanced | miniupnpd/upnpdescgen.c:892-1002 | Reading those tokens leaves the open elements as they were, whatever follows. |
| DescGen.DocumentIsBalanced | miniupnpd/upnpdescgen.c:892-1002 | What is printed for any well-formed table whose names and data hold no stray angle brackets has balanced tags: reading it character by character, every end tag names the innermost open element, and at the end none is open. |
| NameValue.NameValueParserData.StartElt | miniupnpd/upnpreplyparse.c:17-28 | The callback records the element name, cut to 63 characters. |
| NameValue.NameValueParserData.EndElt | miniupnpd/upnpreplyparse.c:30-73 | A pair is pushed exactly at the end of an innermost element, value cut to 127 characters. |
| NameValue.NameValueParserData.GetData | miniupnpd/upnpreplyparse.c:75-103 | The text is recorded; a port listing goes to its own buffer. |
| NameValue.NameValueParserData.GetValue | miniupnpd/upnpreplyparse.c:139-153 | The value of the first pair of the list with the name, or none. |
| NameValue.HandleConcat | miniupnpd/upnpreplyparse.c:17-103 | Callbacks fired one after the other compose. |
| MiniXml.Skip | miniupnpd/minixml.c:46-100 | Each small loop stops at the first character outside its class and before the limit. |
| MiniXml.Attributes | miniupnpd/minixml.c:40-107 | Attribute parsing ends at a '/' or '>' inside the document, or fails. |
| MiniXml.XmlParser.ParseAtt | miniupnpd/minixml.c:40-107 | The cursor loop leaves the cursor where the pure description says, never reading past one character behind the document. |
| MiniXml.XmlParser.ParseOneAtt | miniupnpd/minixml.c:53-105 | The same for one attribute, quoted or not. |
| MiniXml.XmlParser.ParseName | miniupnpd/minixml.c:132-146 | The element name, without its namespace prefix. |
| MiniXml.XmlParser.ParseContent | miniupnpd/minixml.c:153-198 | What follows a start tag: white space, a CDATA section or text. |
| MiniXml.XmlParser.ParseTag | miniupnpd/minixml.c:130-214 | One tag and its callbacks. |
| MiniXml.XmlParser.ParseElt | miniupnpd/minixml.c:111-221 | The scanner fires exactly the callbacks of the pure scan and terminates on every document, whatever character lies behind it. |
| MiniXml.ParseNameValue | miniupnpd/upnpreplyparse.c:105-120 | The pairs collected are those of the pure scan, for every document and every character behind it. |
| XmlRoundTrip.AttributesRun | miniupnpd/minixml.c:40-107 | Printed attributes, white space and all, the last value in quotes, are skipped exactly. |
| XmlRoundTrip.OpenTurn | miniupnpd/minixml.c:130-198 | A printed start tag hands over to its content, under the name without prefix. |
| XmlRoundTrip.NameFound | miniupnpd/minixml.c:132-147 | The name of an element is what stands behind its prefix. |
| XmlRoundTrip.ContentElsewhere | miniupnpd/minixml.c:153-198 | Text in front of a child, a comment or a processing instruction is not reported. |
| XmlRoundTrip.ContentCData | miniupnpd/minixml.c:164-182 | The text of a CDATA section is reported whole, whatever it holds but its end. |
| XmlRoundTrip.CommentTurn | miniupnpd/minixml.c:116-128 | A comment is stepped over as a whole. |
| XmlRoundTrip.ContentText | miniupnpd/minixml.c:153-198 | Printed text is reported whole, white space included. |
| XmlRoundTrip.CloseTurn | miniupnpd/minixml.c:200-214 | A printed end tag is one end callback. |
| XmlRoundTrip.ScanTree | miniupnpd/minixml.c:111-221 | Scanning any printed tree - elements with and without prefix, CDATA sections, comments, gaps - fires exactly its callbacks and goes on behind it. |
| XmlRoundTrip.HandleTree | miniupnpd/upnpreplyparse.c:17-103 | The callbacks of a tree put its leaves in front of the list, last first, and keep the last port listing; containers, comments and gaps leave no trace. |
| XmlRoundTrip.ReadBack | miniupnpd/upnpreplyparse.c:105-120 | Printing any document and reading it gives exactly its leaves under their names without prefix, last first, names cut to 63 and values to 127 characters, and the text of the last port listing, uncut. |
| XmlRoundTrip.LookupFindsLast | miniupnpd/upnpreplyparse.c:139-153 | Looking a name up in what was read finds the last leaf of the document with that name. |
| XmlRoundTrip.LookupFindsNone | miniupnpd/upnpreplyparse.c:139-153 | and nothing if no leaf has it. |
| XmlRoundTrip.ReadByName | miniupnpd/upnpreplyparse.c:105-153 | Looking up a name in what was read from a document finds the value of the last leaf with that name, whatever its prefix. |
| XmlRoundTrip.ArgumentIsFound | miniupnpd/upnpreplyparse.c:105-153 | The argument NewExternalPort of a SOAP request, with any prefix, as text or CDATA, is found with its value. |
| DescRoundTrip.SerialIsPrinted | miniupnpd/upnpdescgen.c:892-1002 | The serialisation of a readable table is the printed form of its element tree, leaf for leaf. |
| DescRoundTrip.DescriptionReadsBack | miniupnpd/upnpdescgen.c:1009-1024 | The description generated from a table, read by the daemon's own XML reader, gives exactly the table's leaves with data, last first. |
| AsyncSend.SendTimeIsExact | miniupnpd/asyncsendto.c:140-146 | The stored time is enqueue time plus delay in exact microseconds; tv_usec is at most 1000000, and is 1000000 exactly if the sum hits it. |
| AsyncSend.BeforeIsExact | miniupnpd/asyncsendto.c:191-215 | Comparing seconds, then microseconds, agrees with exact time in spite of that. |
| AsyncSend.SendQueue.SendtoSchedule2 | miniupnpd/asyncsendto.c:94-165 | New queue and result for every answer of sendto(), of the clock and of malloc(). |
| AsyncSend.SendQueue.GetNextScheduledSend | miniupnpd/asyncsendto.c:183-199 | The number of packets and a stored time that is before every other one. |
| AsyncSend.SendQueue.GetSendtoFds | miniupnpd/asyncsendto.c:201-222 | Due packets are marked to be sent now; the count, the set of sockets and the highest socket are exact. |
| AsyncSend.SendQueue.TrySendto | miniupnpd/asyncsendto.c:224-272 | Removing while walking: each ready packet is given to the socket once; the result is minus the number of failures. |
| AsyncSend.TryKeeps | miniupnpd/asyncsendto.c:224-272 | try_sendto() keeps the queue good: nothing early, nothing twice, every packet accounted for. |
| AsyncSend.MarkKeeps | miniupnpd/asyncsendto.c:201-222 | get_sendto_fds() does so, also with an older reading of the clock. |
| AsyncSend.ScheduleKeeps | miniupnpd/asyncsendto.c:94-165 | sendto_schedule2() does so. |
| AsyncSend.StepKeeps | miniupnpd/asyncsendto.c:94-272 | Every step does so. |
| AsyncSend.RunsAreGood | miniupnpd/asyncsendto.c:27-272 | In every run no packet is given to the socket before enqueue time plus delay, none again once it was sent or has failed, and the queue holds exactly the packets whose history has not ended. |
| AsyncSend.RunsDeliver | miniupnpd/asyncsendto.c:96-165 | In every run each packet goes to the socket it was scheduled for, with its own length, and is due its own delay after the clock was read. |
| AsyncSend.StatesTell | miniupnpd/asyncsendto.c:27-35 | In every run a packet waits for its socket exactly if its last attempt would have blocked, and a packet only scheduled was never tried. |
| AsyncSend.DueIsTried | miniupnpd/asyncsendto.c:203-272 | Which packets are given to their sockets in a round, exactly: those due, and those whose socket can be written to. |
| AsyncSend.WatchedAreBlocked | miniupnpd/asyncsendto.c:203-213 | The sockets select() is asked to watch are exactly those of packets whose last attempt would have blocked. |
| AsyncSend.QueuedIsAcceptedLessEnded | miniupnpd/asyncsendto.c:94-272 | In every run queued = accepted - sent - failed. |
| AsyncSend.StatesFollowDiagram | miniupnpd/asyncsendto.c:27-35 | A packet in the queue after a step is new, or moved along an edge of the state diagram. |
| AsyncSend.EarliestIsExact | miniupnpd/asyncsendto.c:183-199 | The time found field by field is a true real-time minimum. |
| AsyncSend.DueIsCounted | miniupnpd/asyncsendto.c:201-222 | Once the earliest packet is due, get_sendto_fds() counts at least one packet. |
| MainLoop.Daemon.CheckAnnounce | miniupnpd/miniupnpd.c:2559-2598 | The timeout is the exact time to the next SSDP announcement, normal and not negative, also right after an announcement or without a clock. |
| MainLoop.AnnouncementsSpaced | miniupnpd/miniupnpd.c:2570-2580 | For all readings of the clock: announcements are never less than the interval apart, in whole seconds, and after no turn is the last one that old. |
| MainLoop.WakesForAnnouncement | miniupnpd/miniupnpd.c:2583-2596 | The timeout ends exactly one interval after the last announcement, and then the next one is due. |
| MainLoop.Daemon.CheckLeases | miniupnpd/miniupnpd.c:2616-2631 | Expired leases are cleaned, the cell is 0 or ahead, and the timeout goes down to the whole seconds until it. |
| MainLoop.Daemon.CheckQueue | miniupnpd/miniupnpd.c:2757-2787 | The timeout is 0 if a packet is due and else at most the exact time to the earliest one; tv_usec is 1000000 if and only if the clock is at a whole second, the earliest packet is stored with such a tv_usec, is not due, and does not come after the timeout so far. |
| MainLoop.Daemon.PrepareSelect | miniupnpd/miniupnpd.c:2559-2787 | All three together: new state of table, cell and queue; the timeout passed to select() as a function of the three deadlines, exactly when its tv_usec is 1000000, and that it passes neither the next announcement nor a queued packet, nor the end of a lease by a second. |
| MainLoop.EarliestIsMinDue | miniupnpd/asyncsendto.c:183-199 | The field-by-field earliest time is the least due time of the queue. |
| MainLoop.TimeoutRespectsDeadlines | miniupnpd/miniupnpd.c:2567-2787 | The timeout is not negative, passes neither the next announcement nor the earliest packet, and passes no lease's end by a second or more. |
| MainLoop.LeaseOvershootIff | miniupnpd/miniupnpd.c:2624-2628 | The timeout passes the exact end of the next lease if and only if the clock is not at a whole second and neither other deadline comes by then. |
| MainLoop.LeaseOvershoots | miniupnpd/miniupnpd.c:2624-2628 | A concrete case: asleep for a second, half a second before a lease ends. |
| MainLoop.TimeoutIsNearest | miniupnpd/miniupnpd.c:2567-2787 | At a whole second the timeout is exactly the nearest of the three deadlines. |
| MainLoop.ScheduleAllKeeps | miniupnpd/miniupnpd.c:2570-2579 | Handing all notifications to the send queue keeps it good. |
| HttpHeaders.FindEndHeaders | miniupnpd/upnphttp.c:465-478 | The first CR LF CR LF, or none exactly if there is none. |
| HttpHeaders.ParseHttpHeaders | miniupnpd/upnphttp.c:212-419 | The loop over the lines finds Content-Length, Host, SOAPAction and "Expect: 100-continue" as the pure fold over the lines does, and never leaves the header block. |
| HttpHeaders.ParseStep | miniupnpd/upnphttp.c:412-417 | A line of the block ends inside it: the scan for the line end does not run off the buffer. |
| HttpHeaders.HeadersAreLocal | miniupnpd/upnphttp.c:215-419 | Which headers there are and where their values lie does not depend on anything behind the block. |
| HttpHeaders.LengthOf | miniupnpd/upnphttp.c:239-248 | The Content-Length is the block's own, unless the last one is empty at the end of the block: then it is the number the body starts with, as far as it has arrived. |
| HttpHeaders.NumberSpills | miniupnpd/upnphttp.c:241-244 | With only white space left in the block, atoi() reads on behind it. |
| Http.Connection.SendRespAndClose | miniupnpd/upnphttp.c:1320-1381 | State, bytes accepted and close for every sequence of answers of send(). |
| Http.Connection.ProcessHTTPPOST | miniupnpd/upnphttp.c:522-569 | The SOAP action is executed with header block and body once the body is complete; otherwise the 100 Continue asked for is sent at once, and the connection waits for content. |
| Http.Connection.ProcessHttpQuery | miniupnpd/upnphttp.c:783-879 | Headers are parsed, a Host that is no address is refused, and a POST is processed. |
| Http.Connection.Process | miniupnpd/upnphttp.c:942-1118 | One event on the connection, in every state. |
| Http.NextKeeps | miniupnpd/upnphttp.c:942-1118 | In every state what send() has accepted is what it accepted of a 100 Continue, which is only sent if asked for, and then the beginning of the final response; all header values lie in the request buffer. |
| Http.SoapActionRunsOnce | miniupnpd/upnphttp.c:522-569 | For every way of cutting the stream, a 100 Continue that send() does not block on included, the same header block and body are handed to ExecuteSoapAction(), exactly once, as soon as the body is complete, and what it gives back is the response. |
| Http.CutAnywhere | miniupnpd/upnphttp.c:1006-1105 | The state of the connection after any such cut. |
| Http.CuttingMattersIff | miniupnpd/upnphttp.c:241-248 | What is executed is the same for all cuts of the stream if and only if the last Content-Length does not spill, or what it would read from the first bytes of the body is never more than 0. |
| Http.EmptyLengthSpills | miniupnpd/upnphttp.c:241-248 | A concrete request and body for which it is not. |
| Http.ResponseArrivesInOrder | miniupnpd/upnphttp.c:1320-1381 | Over any number of resumed calls the bytes accepted are, behind any 100 Continue, a growing prefix of one response, and without an error the connection closes only when all were. |
| Stun.ParseStunResponse | miniupnpd/upnpstun.c:282-393 | For every datagram the in-place loop returns what a pure reading of the original bytes gives, never indexes past the end, and leaves exactly the restored bytes. |
| Stun.ParseAttributes | miniupnpd/upnpstun.c:308-392 | The attribute loop, in place, against the list of attributes. |
| Stun.DecodeAttribute | miniupnpd/upnpstun.c:324-388 | One attribute of it. |
| Stun.RestoreInPlace | miniupnpd/upnpstun.c:331-339 | The six bytes are un-xored in place and no other byte changes. |
| Stun.ChooseAppend | miniupnpd/upnpstun.c:347-357 | The first IPv4 XOR-MAPPED-ADDRESS wins, else the last MAPPED-ADDRESS. |
| Stun.RestoredKeeps | miniupnpd/upnpstun.c:331-339 | Bytes outside the attributes seen so far are as they arrived. |
| Stun.AddressRestored | miniupnpd/upnpstun.c:347-352 | The address read after restoring is the one un-xored from the original bytes. |
| Stun.AttsOfFields | miniupnpd/upnpstun.c:313-322 | Walking attributes that were written one after the other finds them all. |
| Stun.ResponseReadsBack | miniupnpd/upnpstun.c:282-393 | An address encoded as section 15.2 of RFC 5389 says, under that type or the older 0x8020, behind any attributes that are no XOR-MAPPED-ADDRESS, is read back. |
| Stun.PlainReadsBack | miniupnpd/upnpstun.c:325-372 | Without an XOR-MAPPED-ADDRESS the last MAPPED-ADDRESS written, as section 15.1 of RFC 5389 says, is read back. |
| Stun.NothingReadBack | miniupnpd/upnpstun.c:302-393 | Without either there is no address. |
| Stun.GoodHeaderIff | miniupnpd/upnpstun.c:295-306 | A header is good exactly if it is that of a binding response, success or error, and the message has arrived whole. |
| Stun.LayoutSeenIff | miniupnpd/upnpstun.c:308-389 | The loop, which neither skips padding nor stops at the message length, sees the attributes of RFC 5389's layout if and only if all it sees lie in the message, every one but the last has a length that is a multiple of four, and nothing follows the padding of the last. |
| Stun.LaidOutReadAsStandard | miniupnpd/upnpstun.c:308-389 | Responses whose attributes all lie in the message, so laid out, are read as the standard lays them out. |
| Stun.UnalignedIsLost | miniupnpd/upnpstun.c:389-389 | A concrete response whose address is lost behind a one-byte attribute. |
| CodeLength.EncodeIsGroups | miniupnpd/codelength.h:48-52 | CODELENGTH writes the 7-bit groups of the number, most significant first. |
| CodeLength.EncodedText | miniupnpd/codelength.h:17-30 | Three lengths, byte for byte. |
| CodeLength.DecodeLeading | miniupnpd/codelength.h:37-42 | Reading the leading groups collects their value. |
| CodeLength.DecodeEncode | miniupnpd/codelength.h:17-52 | For every n below 2^32, decoding its bytes, whatever precedes or follows, gives n and stops right behind them. |
| CodeLength.DecodeNeverOverflows | miniupnpd/codelength.h:17-42 | No shift loses a bit: 32-bit decoding equals unbounded decoding on every input, and ends inside the buffer. |
| CodeLength.DecodeCheckLimit | miniupnpd/codelength.h:37-42 | The limit-checked decoder never reads at or behind the limit and gives the same result. |
| CodeLength.DecodeUnlimited | miniupnpd/codelength.h:17-19 | So does the unchecked one wherever the code ends in the buffer. |
| CodeLength.WriteLength | miniupnpd/codelength.h:48-52 | The bytes go into the buffer behind what was there, and the pointer stops behind them. |
| CodeLength.BuildMessage | miniupnpd/minissdp.c:1511-1556 | The buffer holds exactly the request byte and the length-prefixed strings. |
| CodeLength.FieldsReadBack | miniupnpd/minissdp.c:1516-1554 | Reading any number of length-prefixed strings gives them back. |
| CodeLength.MessageReadsBack | miniupnpd/minissdp.c:1511-1556 | A message is a byte 4 and strings that decode back to those it was built from, under any suffix. |
| CodeLength.MessageIsUnique | miniupnpd/minissdp.c:1511-1556 | Different strings give different messages. |
| Grants.AddGrants | miniupnpd/upnpredirect.c:340-480 | A success of upnp_redirect(): the port is permitted and leads to the client and internal port asked for, with the description and lease asked for; a renewal was of the client's own mapping with the same remote host, which it keeps. |
| Grants.RenewalLosesIff | miniupnpd/upnpredirect.c:440-461 | A renewal loses the client's mapping if and only if it changes the internal port and the firewall, in one of the two rounds, takes the old rule away but does not accept the new one. |
| Grants.AddTouchesOneKey | miniupnpd/upnpredirect.c:340-563 | upnp_redirect() leaves the mapping of every other (external port, protocol) as it was. |
| Grants.NatPmpMapTouchesOneKey | miniupnpd/natpmp.c:331-401 | So does a NAT-PMP mapping request, but for the port it is answered with. |
| Grants.PcpMapTouchesOneKey | miniupnpd/pcpserver.c:905-1003 | So does a PCP MAP request. |
| Grants.CleaningTakesExpired | miniupnpd/upnpredirect.c:738-834 | Looked up by key, a cleaning pass takes exactly the mappings that have expired and can be deleted. |
| Leases.LeaseEndsOnTime | miniupnpd/upnpredirect.c:440-479 | A mapping added or renewed with lease 0 is left by every cleaning pass; one with lease L is left by every pass before now + L and taken by every one from then on that the firewall lets; beyond 32 bits the end is 2^32 seconds early. |
| Leases.NatPmpLifetimeEndsOnTime | miniupnpd/natpmp.c:388-397 | The same of a NAT-PMP mapping that was stored. |
| Leases.PcpLifetimeEndsOnTime | miniupnpd/pcpserver.c:911-1001 | The same of a PCP mapping. |
| Leases.OnlyOwnerRenews | miniupnpd/upnpredirect.c:430-468 | Once a client was granted a free port, exactly that client, for the same remote host, renews it; anyone else who is permitted gets -2, and nothing changes. |
| Leases.AnswersAreExact | miniupnpd/upnpredirect.c:364-480 | Which of 0, -1, -2, -3 and -4 is the answer, for all inputs. |
| Leases.DeletionIsExact | miniupnpd/upnpredirect.c:664-697 | A deletion takes its key exactly if it is there and the firewall lets go, and leaves every other key alone. |
| Leases.NextCleaning | miniupnpd/upnpredirect.c:551-554 | A new lease moves the next cleaning down to its end and never up; a renewal leaves it alone. |
| Leases.SurvivorsAreRest | miniupnpd/upnpredirect.c:738-834 | The rules a pass reports are those it leaves in the table, last first. |
| Events.OneInFlight | miniupnpd/upnpevents.c:211-295 | In every state each subscriber has at most one notification in flight, and the two refer to each other. |
| DescGen.RenderingReads | miniupnpd/upnpdescgen.c:892-1002 | Reading the printed characters agrees with reading the tokens, both ways: balanced exactly if the tokens nest. |
| DescGen.CrossedTagsAreNot | miniupnpd/upnpdescgen.c:892-1002 | Crossed tags are not balanced under that reading. |
| MainLoop.UnnormalHappens | miniupnpd/miniupnpd.c:2772-2784 | A concrete packet and clock for which tv_usec is 1000000. |
| MainLoop.EarliestIsUnique | miniupnpd/asyncsendto.c:183-199 | The time found field by field is the only one that is before no other. |
| Stun.BehindIsTaken | miniupnpd/upnpstun.c:308-313 | A concrete datagram whose address stands behind the end of the message and is taken all the same. |
| Pcp.DeletionRemovesAllIff | miniupnpd/pcpserver.c:1097-1145 | A deletion leaves no mapping it names if and only if there was none, or the first one carries the client's nonce, the firewall lets it go, and there is no other. |
| Pcp.DeletionLeavesSecond | miniupnpd/pcpserver.c:1097-1145 | A concrete deletion of all mappings that answers success and leaves the second. |
| XmlRoundTrip.AttributesRunIff | miniupnpd/minixml.c:40-107 | The '>' behind printed attributes is found if and only if the last value is in quotes: behind another the scanner steps over a character. |
| XmlRoundTrip.BareValueHidesLeaf | miniupnpd/minixml.c:87-105 | A concrete document whose leaf is lost behind an unquoted value. |
| XmlBehind.BehindMattersIff | miniupnpd/minixml.c:153-198 | The callbacks are the same whatever lies behind the document if and only if the scan does not end on a start tag followed by white space and a '<' that is the last character, or a '/' lies there both times or neither. |
| XmlBehind.PairsIgnoreBehind | miniupnpd/upnpreplyparse.c:17-103 | Names and values found never depend on it. |
| XmlBehind.PrintedNeverLooks | miniupnpd/minixml.c:153-198 | A printed element never makes the callbacks depend on it. |
| XmlBehind.StrayLtLooks | miniupnpd/minixml.c:189-196 | A concrete document for which they do. |
| HttpHeaders.LastHeaderWins | miniupnpd/upnphttp.c:225-418 | Of each header the value that counts is that on the last line of the block with its name, and there is none if there is no such line. |
| HttpWritten.WrittenIsBlock | miniupnpd/upnphttp.c:465-478 | A written header block ends where the first empty line is found. |
| HttpWritten.WrittenHeaders | miniupnpd/upnphttp.c:212-281 | From a block of header fields, their names in any mixture of capitals and small letters, the daemon takes the length, the host, the SOAP action without quotes and the wish for a 100 Continue that the last field of each name gives, whatever follows. |
| HttpWritten.AnyNumberRead | miniupnpd/upnphttp.c:241-248 | Every decimal number is read as itself below 2^31; a larger one is cut to 32 bits, and counts as 0 if that is negative. |
| HttpWritten.HostRefusedIff | miniupnpd/upnphttp.c:836-863 | A Host without blanks is refused exactly if it is no address. |
| HttpWritten.WrittenRequestRuns | miniupnpd/upnphttp.c:522-569 | A written POST with a SOAPAction, to an address, with Content-Length n: however it is cut, the action is run once, with the block, the action without quotes and the n characters of the body, and answered with what it gives back. |
| HttpWritten.WrittenOtherRunsNothing | miniupnpd/upnphttp.c:784-886 | A written request of another kind, or to a host that is no address, runs nothing and is answered at once. |
| Http.OthersAreAnswered | miniupnpd/upnphttp.c:784-886 | The same for every complete header block and every way of cutting the stream. |
| Http.GivenUp | miniupnpd/upnphttp.c:953-1006 | A connection that is closed or breaks while a request is awaited is given up, and then nothing happens to it any more. |
| Http.SendingIsExact | miniupnpd/upnphttp.c:1320-1381 | How much is sent for any sequence of answers, and whether the loop is finished then. |
| Http.Connection.SendResp | miniupnpd/upnphttp.c:1259-1318 | The 100 Continue is sent as far as send() takes it; the connection waits for content once it is finished, and stays if send() would block. |
| Http.ContinueIsSent | miniupnpd/upnphttp.c:550-563 | When the body is still to come, the connection waits for it at once exactly if all of the 100 Continue was accepted; otherwise a prefix was, and it stays in the sending state. |

## Left out

- StrBuf.Buffer.AppendInt: INT_MIN is excluded, because negating it is undefined in C.
- Redirect.Redirector.RedirectInternal: the filter rule is not modelled, because the ipfw backend's add_filter_rule2 always succeeds; the NULL description is taken as empty.
- Events.EventManager.NotifyConnect: the number of the port and the address are not handed on to connect(); IPv6 callbacks are not read.
- Events.EventManager.AddSubscriber: a callback has a port, a path or a host of 15 characters; behind any other the loop over the host reads on past the string, and C leaves the result undefined.
- Events.EventManager.RenewSubscription: without UPNP_STRICT, so a subscription that ran out but was not yet removed can be renewed.
- Http.SoapActionRunsOnce: assumes that send() does not block on a 100 Continue, because the main loop never polls a connection that is still sending one (miniupnpd/miniupnpd.c:2707-2712), so that it would wait for ever.
- HttpHeaders.ParseHttpHeaders: headers for eventing, language and authorization are not read; atoi() of a number that does not fit is taken as in glibc, because C leaves it undefined; characters compare as signed.
- HttpWritten.WrittenHeaders: is about fields that are one line "name: value" of printable ASCII characters.
- XmlRoundTrip.ReadBack: is about names that open no comment, CDATA section or processing instruction, about tags whose last attribute is in quotes (AttributesRunIff has the rest) and that have no white space in front of their '>', and about documents without NUL characters.
- MiniXml.ParseNameValue: some character lies behind the document; where none may be read, C leaves the result undefined.
- DescGen.DocumentIsBalanced: is about tables without stray angle brackets, because the printer escapes nothing.
- DescGen.GenXML: is about tables at most 16 deep, because a deeper node is dropped from the stack (miniupnpd/upnpdescgen.c:989); forcing version 1 and random URLs are settings.
- CodeLength.BuildMessage: the four strings are parameters that fit the buffer; how they are formatted is not modelled.
- MainLoop.Daemon.PrepareSelect: the sockets, remove_unused_rules and IPv6 pinholes are not part of it; the clock fits 32 bits and does not run backwards.
- AsyncSend: finalize_sendto(), which ignores the delays at shutdown; times are not cut to the width of time_t.
- The ipfw backend: IP_FW_GET is taken to succeed, interface names to be valid; addresses are 32-bit values, their texts canonical.
- Failure of malloc(), except where the function returns cleanly on it (the string buffer, sendto_schedule2()).
- Parsing the packets of PCP, THIRD_PARTY and other PCP options, PCP PEER, announcements of address changes.
- The lease file, the notifications that a change of the table sets off, logging.
- HTTPS, SUBSCRIBE and GET beyond the fact that they are answered, SOAP response texts, IPv6.
- The SDN controller backend, the pf and netfilter backends, option parsing, JSON, JWT.
