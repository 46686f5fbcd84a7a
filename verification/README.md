# DHCPv6: bindings, wire format, authentication and timing

This project models the core of the WIDE DHCPv6 suite in `apps/dhcp6`: the server's
bindings, leases and address pools, the option codec and relay chains, message
authentication, and the client's timers. It follows DHCPv6 as in RFC 3315 and prefix
delegation as in RFC 3633.

Each routine that works by changing things is a method or a class in the same form,
proved against a function that says what it computes; the properties are lemmas about
those functions.

- `Bytes`, `ListVals`: integers of fixed width, addresses, list values.
- `Lease`, `Pool`, `PoolRoom`, `Hosts`: the hashed lease table as a finite map, 128-bit
  pool search, the table of recently seen clients.
- `Bindings`, `BindingInvariants`, `ServerRuns`, `Twinless`, `ServerReplies`,
  `ServerMessages`, `Server`: the binding engine as a state machine over events (Request,
  Solicit, Confirm, Renew, Rebind, Release, Decline, timer, control "remove"); what every
  run keeps; what replies say; the routines in place on the binding list and the lease
  table.
- `PoolClients`, `StaticClients`, `PrefixSharing`, `RenewReplies`, `ServerUpdates`,
  `BindingChanges`: what a client gets from a pool or from what is configured for it, what
  it is told when it renews or confirms, and what each change of a binding comes to.
- `Names`, `NameLabels`, `Wire`, `WireSound`, `Scopes`, `Options`, `OptionsSound`,
  `OptionRules`, `Codec`, `Messages`: domain names, option trees, whole option sets, the
  reader and writer loops, the readers on arbitrary bytes, and signed messages from end
  to end.
- `Relay`, `RelayPath`: relay chains of any depth, up to the server and back.
- `Md5`, `Hmac`, `Replay`, `Base64`: streaming digests, MACs, replay counters, keys.
- `ClientIa`, `Retransmit`, `Renewal`: renewal times, retransmission, and how the
  server's times fare at the client.

Main results:

- `ServerRuns.ReachableStates` and `ServerRuns.DeclinedForever`: bindings and lease table
  agree in every reachable state, and a declined address stays in the table, is never bound
  again and never drawn from a pool.
- `ServerMessages.RepeatedMessage` and `RenewReplies.RequestThenRenew`: a repeated Request
  changes nothing and gets the same answer, and a Renew of what was granted does too.
- `PoolClients.PoolClientServed`, `StaticClients.PrefixClientServed` and
  `StaticClients.AddressClientServed`: who gets a Reply, and with which values.
- `Options.OptionsRoundTrip`, `Messages.SignedMessage` and `Messages.SignedOnceAccepted`:
  what is written is read back, and a signed message is authentic where its receiver
  looks and accepted once.
- `WireSound.CopyInSound`, `OptionsSound.ReadWrittenRead` and `NameLabels.DecodesExactly`:
  whatever bytes arrive, what the parser takes over is well-formed and can be passed on.
- `RelayPath.ReplyReachesClient`: a reply retraces the way of the message.
- `Md5.DigestOfParts`, `Hmac.HmacOfParts`: the digest does not depend on how a message is
  cut into pieces.
- `Replay.AcceptedExactly`, `Replay.ReplayRejected`, `Base64.DecodesExactly`,
  `Names.ListRoundTrip`: exact conditions, in both directions.
- `Retransmit.Exchange`, `Retransmit.WholeRun`, `Retransmit.SolicitsEnd`,
  `ClientIa.Unanswered`: every message
  exchange of the client, exactly when a whole run keeps to one exchange for each kind of
  message, and the timer of an IA.

Where the code does less than it sets out to do, the code is followed, and a lemma says
exactly when it does: pools that end in all ones (`Pool.SearchStaysInside`), static
address lists, whose offers can exceed the binding and name a declined address
(`ServerMessages.StaticReplyIsBinding`, `ServerMessages.DeclinedOffered`), which leave a client
that names a leased address without a Reply although another one of its own is free
(`StaticClients.AddressClientServed`) and can answer a Renew differently from the Reply
(`RenewReplies.StaticThenRenew`), prefixes that two IAs of one client can share
(`PrefixSharing.SharesExactly`), the timer of a new binding (`BindingChanges.FirstTimerLate`),
an Advertise of the highest preference that meets a running Request (`Retransmit.WholeRun`), T2 for lifetimes
of 2^30 seconds and more (`ClientIa.LocalT2`, `Renewal.OfferAccepted`), the first Solicit timeout
(`Retransmit.FirstSolicit`, against the comment at apps/dhcp6/common.c:2867-2872), and
empty domain names (`Names.ListRoundTrip`).

Inputs from outside the program are parameters: the clock, random numbers, interface
indices and addresses, and the configuration of hosts and pools.

## Model

| member | source | states |
|---|---|---|
| `Lease.In6AddrHash` | apps/dhcp6/lease.c:177-189 | the hash loop adds up the sixteen bytes of the address, which decides the bucket |
| `Lease.LeaseTable.constructor` | apps/dhcp6/lease.c:205-229 | a new table holds no lease |
| `Lease.LeaseTable.Find` | apps/dhcp6/lease.c:307-327 | search of one bucket finds an address exactly when it is leased anywhere in the table |
| `Lease.LeaseTable.Add` | apps/dhcp6/lease.c:255-281 | the map gains the address, not declined; every entry stays in its own bucket and no address repeats |
| `Lease.LeaseTable.Remove` | apps/dhcp6/lease.c:284-304 | the map loses the address and nothing else; nothing happens for an unknown address |
| `Lease.LeaseTable.LeaseAddress` | apps/dhcp6/lease.c:113-132 | refused exactly when the address is leased already, otherwise leased and not declined |
| `Lease.LeaseTable.ReleaseAddress` | apps/dhcp6/lease.c:135-146 | the address is free afterwards, all others are as before |
| `Lease.LeaseTable.DeclineAddress` | apps/dhcp6/lease.c:149-167 | a leased address is marked declined; an unknown one stays unknown |
| `Lease.LeaseTable.IsLeased` | apps/dhcp6/lease.c:170-174 | true exactly for the members of the map, declined or not |
| `Lease.LeaseTable.Replay` | apps/dhcp6/lease.c:113-174 | the bucketed table and a finite map give the same answers and the same contents after every sequence of operations |
| `Pool.In6AddrCmp` | apps/dhcp6/config.c:2204-2219 | byte-wise comparison is the order of the 128-bit numbers |
| `Pool.IncIsPlusOne` | apps/dhcp6/config.c:2222-2231 | the increment with carry adds one to the 128-bit number, modulo 2^128 |
| `Pool.In6AddrInc` | apps/dhcp6/config.c:2222-2231 | the in-place loop changes the sixteen bytes to that successor |
| `Pool.GetFreeAddress` | apps/dhcp6/config.c:2147-2175 | terminates; returns the least usable address of the range, or none exactly when the range has none |
| `Pool.SearchIsLeast` | apps/dhcp6/config.c:2147-2175 | for a range that does not end in all ones, what is found is usable, inside, and least; nothing found means nothing usable |
| `Pool.SearchStaysInside` | apps/dhcp6/config.c:2157-2175 | the search result lies in the range if and only if the range does not end in all ones or still has a usable address |
| `Pool.AllOnesPoolLeavesRange` | apps/dhcp6/config.c:2157-2175 | the pool that is the single all-ones address hands out the unspecified address instead |
| `PoolRoom.UsableExists` | apps/dhcp6/config.c:2157-2175 | with fewer than 2^120 leases some address is usable, so the search of a pool that ends in all ones ends too |
| `PoolRoom.FullPoolWraps` | apps/dhcp6/config.c:2157-2175 | every full pool that ends in all ones: the search wraps round and returns the least usable address of all, below the pool |
| `Pool.IsAvailable` | apps/dhcp6/config.c:2178-2201 | true exactly for a usable address inside the range |
| `Scopes.UsableIs` | apps/dhcp6/config.c:2178-2201 | usable means not leased and in none of the prefixes ff00::/8, fe80::/10 and fec0::/10 |
| `ListVals.FindListval` | apps/dhcp6/common.c:197-259 | the first entry of the same kind and key, none if there is none |
| `ListVals.FindListvalPlen` | apps/dhcp6/common.c:197-259 | the same when prefix lengths count |
| `Server.CalcIaTimo` | apps/dhcp6/dhcp6s.c:3098-3143 | T1 and T2 come from the least preferred lifetime, with the 32-bit product |
| `Server.UpdateBindingDuration` | apps/dhcp6/dhcp6s.c:3146-3202 | the loop leaves the least remaining valid lifetime, 0 once it is past |
| `Server.MakeMatchIa` | apps/dhcp6/dhcp6s.c:3007-3050 | which configured value a hint selects: the same one, or for a prefix one of the same length |
| `Server.RenewList` | apps/dhcp6/dhcp6s.c:2403-2564 | the loop computes the values `RenewReplies.RenewAnswers` is about: each one asked for, with the binding's lifetimes, or zero lifetimes if the binding lacks it |
| `Server.BindingTable.FindBindingIndex` | apps/dhcp6/dhcp6s.c:3301-3323 | the binding of a DUID, IA type and IAID, if there is one |
| `Server.BindingTable.Add` | apps/dhcp6/dhcp6s.c:3205-3298 | leases what is free, drops the rest, refuses an empty binding; lease table and bindings keep agreeing |
| `Server.BindingTable.LeaseList` | apps/dhcp6/dhcp6s.c:3239-3265 | exactly the addresses that were free are leased and kept, in order |
| `Server.BindingTable.Update` | apps/dhcp6/dhcp6s.c:3326-3347 | renews the time and the timer of one binding, no address changes |
| `Server.BindingTable.RemoveAndFree` | apps/dhcp6/dhcp6s.c:3350-3398 | the binding goes and its addresses are released |
| `Server.BindingTable.ControlRemove` | apps/dhcp6/dhcp6s.c:703-834 | the control command removes the binding of the DUID and IAID, or reports that there is none |
| `Server.BindingTable.ReleaseBindingIa` | apps/dhcp6/dhcp6s.c:2567-2639 | takes the named addresses out of the binding and the lease table, removing an empty binding; a status option without a binding |
| `Server.BindingTable.DeclineBindingIa` | apps/dhcp6/dhcp6s.c:2642-2707 | takes the named addresses out of the binding and marks them declined |
| `Server.BindingTable.BindingTimo` | apps/dhcp6/dhcp6s.c:3401-3471 | the timer routine in place equals the timeout step of the state machine |
| `Server.BindingTable.MakeIanaFromPool` | apps/dhcp6/dhcp6s.c:3054-3095 | the hinted address if it is available in the pool, else the least free one |
| `Server.BindingTable.MakeIaOption` | apps/dhcp6/dhcp6s.c:2880-3004 | the reply, the binding and the remaining configuration for one IA, as `PoolClients.PoolClientServed`, `StaticClients.PrefixClientServed` and `StaticClients.AddressClientServed` spell out |
| `Server.BindingTable.MakeOptions` | apps/dhcp6/dhcp6s.c:1442-1673 | one IA after the other, stopping at the first failure where the message demands it |
| `Server.BindingTable.ReactRequest` | apps/dhcp6/dhcp6s.c:1443-1673 | the Request step of the state machine; every IA asked for gets the option made for it, or a status code |
| `Server.BindingTable.ReactSolicit` | apps/dhcp6/dhcp6s.c:1235-1440 | the Solicit step of the state machine, the options made for each IA, and NoPrefixAvail or NoAddrsAvail exactly when no IA of the kind was met; `ServerMessages.SolicitOnlyRenews` says what the step does without commit |
| `Server.BindingTable.ReactConfirm` | apps/dhcp6/dhcp6s.c:2164-2327 | the Confirm step of the state machine; dropped without IAs, at an IA without addresses or one that cannot be met, NotOnLink at an address of another link, otherwise success with the options made |
| `Server.BindingTable.UpdateBindingIa` | apps/dhcp6/dhcp6s.c:2403-2564 | renewal of one IA, answered as `RenewReplies.AnswerCases` spells out; NoBinding for a Renew without a binding, nothing for a Rebind |
| `Server.BindingTable.ReactUpdate` | apps/dhcp6/dhcp6s.c:1676-1905 | Renew and Rebind as steps of the state machine; every IA is answered from the binding as it was before the message, or with NoBinding, and a Rebind is dropped at an IA without a binding |
| `Server.BindingTable.ReactRelease` | apps/dhcp6/dhcp6s.c:1908-2035 | Release as a step of the state machine, with a NoBinding status for exactly the IAs that have none by their turn |
| `Server.BindingTable.ReactDecline` | apps/dhcp6/dhcp6s.c:2038-2161 | Decline as a step of the state machine, with a NoBinding status for exactly the IAs that have none by their turn |
| `BindingInvariants.AddKeepsInv` | apps/dhcp6/dhcp6s.c:3205-3298 | adding a binding keeps: unique keys, no empty binding, each address held as often as it is leased |
| `BindingInvariants.CutKeepsInv` | apps/dhcp6/dhcp6s.c:2567-2707 | taking named values out of a binding keeps it |
| `BindingInvariants.ReleaseKeepsInv` | apps/dhcp6/dhcp6s.c:2567-2639 | releasing an IA keeps it |
| `BindingInvariants.DeclineKeepsInv` | apps/dhcp6/dhcp6s.c:2642-2707 | declining an IA keeps it |
| `BindingInvariants.RemoveKeepsInv` | apps/dhcp6/dhcp6s.c:3350-3398 | removing a binding keeps it |
| `BindingInvariants.RenewKeepsInv` | apps/dhcp6/dhcp6s.c:3326-3347 | renewing a binding keeps it |
| `BindingInvariants.TimeoutKeepsInv` | apps/dhcp6/dhcp6s.c:3401-3471 | an expiry keeps it |
| `BindingInvariants.MakeIaKeepsInv` | apps/dhcp6/dhcp6s.c:2880-3004 | answering an IA, from a pool or a static list, keeps it |
| `BindingInvariants.LeasedIffHeldOrDeclined` | apps/dhcp6/dhcp6s.c:3239-3265 | an address is leased and not declined if and only if some IA_NA binding holds it; a declined one is in none |
| `BindingInvariants.HeldOnce` | apps/dhcp6/dhcp6s.c:3239-3265 | no address stands in two places of the bindings |
| `ServerRuns.RemoveTarget` | apps/dhcp6/dhcp6s.c:703-834 | the binding the control command means: the IA_PD one with the key, the IA_NA one if there is no such IA_PD, none only if neither exists |
| `ServerRuns.StepSound` | apps/dhcp6/dhcp6s.c:1235-2327 | every event keeps the agreement of bindings and leases and every declined mark |
| `ServerRuns.ReachableStates` | apps/dhcp6/dhcp6s.c:1235-3471 | in every reachable state keys are unique, no binding is empty, and the lease table is exactly the addresses held, each once, plus the declined ones |
| `ServerRuns.DeclinedForever` | apps/dhcp6/lease.c:148-174 | an address once declined stays leased, is in no binding and is not usable for a pool in every later state of the run |
| `ServerReplies.LeaseAllKeepsFree` | apps/dhcp6/dhcp6s.c:3239-3265 | a binding keeps the whole offered list if and only if every address was free |
| `ServerReplies.ReplyIsBinding` | apps/dhcp6/dhcp6s.c:2892-3001 | the option is the list offered, and that list is what was bound if and only if it could be leased whole; `ServerMessages.StaticReplyIsBinding` says when |
| `ServerReplies.PoolReplyIsBinding` | apps/dhcp6/dhcp6s.c:2892-3001 | for a pool-backed client with distinct hints the Reply is the binding |
| `ServerReplies.StaticReplyExceedsBinding` | apps/dhcp6/dhcp6s.c:2996-3001 | for a static list the Reply can name an address that another client holds |
| `ServerMessages.SolicitOnlyRenews` | apps/dhcp6/dhcp6s.c:2897-2905 | a Solicit without commit leaves leases and the number, keys and values of all bindings unchanged and renews exactly the client's bindings its IAs name |
| `ServerMessages.LeasedOffered` | apps/dhcp6/dhcp6s.c:3007-3050 | of the leased or declined addresses an offer lists exactly those both in the static list and among the hints; from a pool none |
| `ServerMessages.OffersAllFree` | apps/dhcp6/dhcp6s.c:3007-3050 | with distinct hints every address offered is free if and only if no leased address is both in the static list and among the hints |
| `ServerMessages.StaticReplyIsBinding` | apps/dhcp6/dhcp6s.c:2892-3001 | a Reply for a new IA_NA names exactly what was bound if and only if no leased address is both in the client's static list and among its hints |
| `ServerMessages.DeclinedOffered` | apps/dhcp6/dhcp6s.c:2892-3001 | there is an Advertise or Reply that names a declined address if and only if the client has no binding for the IA, the address is in its static list and among its hints, and, to be bound, something else offered is free |
| `ServerMessages.DeclinedReappears` | apps/dhcp6/dhcp6s.c:2996-3001 | the input: a static list and hints that name a declined address and a free one |
| `ServerMessages.RequestBinds` | apps/dhcp6/dhcp6s.c:1443-1673 | after a whole Request of a pool-backed client every option made is that of the binding |
| `ServerMessages.RepeatedMessage` | apps/dhcp6/dhcp6s.c:1443-1673 | a whole Request repeated after any events that spare the bindings granted: every option granted comes back unchanged, nothing held is touched, and nothing changes at all if everything had been granted |
| `ServerReplies.MinLifetimeIsLeast` | apps/dhcp6/dhcp6s.c:3158-3185 | the running minimum is the least lifetime |
| `ServerReplies.TimeoutIsExact` | apps/dhcp6/dhcp6s.c:3401-3471 | an expiry releases exactly the IA_NA addresses past their finite lifetime, keeps exactly the others, and sets the timer to the least remaining lifetime |
| `ServerReplies.NextExpiry` | apps/dhcp6/dhcp6s.c:3146-3202 | the new duration is positive and is the least remaining finite lifetime |
| `PoolClients.HintsHonoured` | apps/dhcp6/dhcp6s.c:3054-3095 | a hint is honoured if and only if the pool has the address free |
| `PoolClients.PoolClientServed` | apps/dhcp6/dhcp6s.c:2892-3001 | a pool-backed client without a binding gets a Reply if and only if its pool has a free address, or ends in all ones and any address is free; it is bound exactly the free pool addresses it asked for, or else the least free one |
| `StaticClients.MatchMeets` | apps/dhcp6/dhcp6s.c:3007-3050 | a hint is met by the first configured value of its name and, for a prefix that has none, by the first of its length |
| `StaticClients.DealtOnce` | apps/dhcp6/dhcp6s.c:2944-2956 | the description of how configured values are dealt out to the hints in turn leaves one outcome |
| `StaticClients.DealtConserves` | apps/dhcp6/dhcp6s.c:2944-2956 | dealing out loses, repeats and makes up nothing |
| `StaticClients.HintsDealt` | apps/dhcp6/dhcp6s.c:2944-2956 | the loop over the hints deals out the configured values, unless a pool takes over from a list used up |
| `StaticClients.SpareFound` | apps/dhcp6/dhcp6s.c:2957-2972 | what is offered unasked is the first configured prefix, or the first free address, and it is found if there is one |
| `StaticClients.PrefixClientServed` | apps/dhcp6/dhcp6s.c:2880-3004 | an IA_PD without a binding is answered if and only if a prefix is still configured; each hint in turn gets the equal prefix or else the first of its length among those left, and if none is met the first configured one is given; exactly this is bound and no prefix is lost or given twice |
| `StaticClients.AddressClientServed` | apps/dhcp6/dhcp6s.c:2880-3004 | an IA_NA without a binding is answered if and only if a configured address is free which is named if any configured one is; listed are those named, in the order of the hints, or else the first free one; bound are those listed that were free |
| `StaticClients.AddressClientOffered` | apps/dhcp6/dhcp6s.c:2880-3004 | an Advertise needs only a configured address that is named or free |
| `StaticClients.NamedButLeased` | apps/dhcp6/dhcp6s.c:2944-2972 | the input that gets no Reply although a configured address is free |
| `PrefixSharing.SharesExactly` | apps/dhcp6/dhcp6s.c:2880-3004 | whatever its hints, a new IA_PD is given nothing held elsewhere if and only if nothing still configured at its turn is held elsewhere |
| `PrefixSharing.GivenTwice` | apps/dhcp6/dhcp6s.c:2880-3004 | the input that has one prefix bound under two IAs of a client |
| `PrefixSharing.MessageApart` | apps/dhcp6/dhcp6s.c:2918-2972 | nothing still configured at an IA's turn was listed for an earlier IA of the message |
| `Twinless.BindingNoTwins` | apps/dhcp6/config.c:1763-1773 | no binding of a sound state holds an address or prefix twice |
| `Twinless.OffersNoTwins` | apps/dhcp6/dhcp6s.c:2944-2972 | prefixes are offered without repetition, and none of those left is among them |
| `Twinless.RunNoTwins` | apps/dhcp6/config.c:1763-1773 | with configured prefixes that differ, no run makes a binding hold one twice |
| `RenewReplies.RenewAnswers` | apps/dhcp6/dhcp6s.c:2478-2550 | a Renew or Rebind is answered with exactly the hints of the IA's kind, in order, each with the lifetimes the binding has for that name, or both zero if and only if it has none |
| `RenewReplies.AnswerCases` | apps/dhcp6/dhcp6s.c:2403-2564 | NoBinding for an IA without a binding, otherwise its identity and these values |
| `RenewReplies.RenewUnchanged` | apps/dhcp6/dhcp6s.c:2478-2550 | a list comes back unchanged if and only if the binding holds all of it, up to unknown values of zero lifetime |
| `RenewReplies.RenewRepeats` | apps/dhcp6/dhcp6s.c:2403-2564 | a Renew of the values an option from the binding listed is answered with that option |
| `RenewReplies.RequestThenRenew` | apps/dhcp6/dhcp6s.c:1676-1905 | the same for every option a whole Request was granted, after any events that leave those bindings alone |
| `RenewReplies.StaticThenRenew` | apps/dhcp6/dhcp6s.c:2403-2564 | for a static list it holds if and only if no leased address that is both configured and named has a lifetime |
| `ServerUpdates.UpdateRenews` | apps/dhcp6/dhcp6s.c:1676-1905 | a Renew renews exactly the bindings its IAs name; a Rebind does so up to the first IA without a binding, and is answered if and only if there is none |
| `ServerUpdates.UpdateSteps` | apps/dhcp6/dhcp6s.c:1676-1905 | the same for the whole events, which change no lease, key or value |
| `ServerUpdates.ConfirmDecided` | apps/dhcp6/dhcp6s.c:2164-2327 | a Confirm is answered NotOnLink if and only if the first IA not wholly on the link names an address, and with success if and only if there are IAs, all on the link, and each was met; unless all are on the link nothing changes |
| `ServerUpdates.ConfirmStops` | apps/dhcp6/dhcp6s.c:2164-2327 | the IAs of a Confirm are met in turn up to and including the first that cannot be |
| `ServerUpdates.ReportCases` | apps/dhcp6/dhcp6s.c:2567-2639 | a Release or Decline reports NoBinding on an IA if and only if no binding has its key |
| `BindingChanges.RemovalIsExact` | apps/dhcp6/dhcp6s.c:3350-3398 | the binding is gone, every other one is found as before, and exactly the addresses it held as an IA_NA are free again |
| `BindingChanges.RemoveTwice` | apps/dhcp6/dhcp6s.c:703-834 | the control command takes the IA_PD of an identifier first and the IA_NA next |
| `BindingChanges.CutLeaves` | apps/dhcp6/dhcp6s.c:2567-2639 | a Release or Decline leaves exactly the values no hint names, in their order |
| `BindingChanges.ConfiguredLeft` | apps/dhcp6/dhcp6s.c:2918-2926 | an IA answered from its binding takes exactly the configured values of its names out of the list |
| `BindingChanges.ReleaseLeaves` | apps/dhcp6/dhcp6s.c:2567-2639 | of addresses or prefixes: the IA keeps exactly what is not named and goes if that is nothing; releasing prefixes touches no lease |
| `BindingChanges.ReleaseAll` | apps/dhcp6/dhcp6s.c:2567-2639 | releasing all that an IA holds removes it |
| `BindingChanges.RenewalIsExact` | apps/dhcp6/dhcp6s.c:3326-3347 | the lifetimes count from now, key and values stay, and the timer is set for the first finite one to run out if and only if there is one and none is zero |
| `BindingChanges.FirstTimerLate` | apps/dhcp6/dhcp6s.c:3205-3298 | a new binding counts its lifetimes from now but its timer is never set for the first of them to run out |
| `BindingChanges.LastsItsTime` | apps/dhcp6/dhcp6s.c:3401-3471 | the timer drops a value if and only if its lifetime has passed since the last update |
| `BindingChanges.LeastPreferred` | apps/dhcp6/dhcp6s.c:3107-3124 | the times of an IA come from the least preferred lifetime in it |
| `PoolClients.TakenIsExact` | apps/dhcp6/dhcp6s.c:2590-2625 | what a Release or Decline takes out of a binding is exactly what is both named and held |
| `PoolClients.ReleaseIsExact` | apps/dhcp6/dhcp6s.c:2567-2639 | a Release frees exactly the addresses it names that the client's IA holds; no other lease changes |
| `PoolClients.DeclineIsExact` | apps/dhcp6/dhcp6s.c:2642-2707 | a Decline marks exactly those addresses and frees none |
| `Renewal.OfferAccepted` | apps/dhcp6/dhcp6s.c:3126-3140 | the client takes the server's T1 and T2 if and only if the least preferred lifetime is infinite, below 2^30 or wraps to a T2 of zero |
| `Renewal.RenewedInTime` | apps/dhcp6/dhcp6s.c:3126-3140 | for lifetimes from 38 up to 2^30 the client renews and rebinds before anything it was given is deprecated |
| `Hosts.RecencyByLastUse` | apps/dhcp6/config.c:1982-2085 | the recency list holds exactly the DUIDs used, each before all that were last used earlier |
| `Hosts.UseKnown` | apps/dhcp6/config.c:2064-2085 | using a known DUID moves it to the front |
| `Hosts.UseNew` | apps/dhcp6/config.c:1982-2061 | using a new DUID puts it in front and drops the last one of a full table |
| `Hosts.Victim` | apps/dhcp6/config.c:2001-2009 | the entry to be replaced is the last one without a key, or the last one |
| `Hosts.HostTable.Find` | apps/dhcp6/config.c:2064-2085 | found exactly if among the 1024 most recently used DUIDs, which then is the most recent |
| `Hosts.HostTable.Create` | apps/dhcp6/config.c:1982-2061 | the table is again the 1024 most recently used DUIDs in order, without repetition, and its counter is its length |
| `Replay.ReplayCheck` | apps/dhcp6/common.c:647-678 | a counter is accepted exactly when it is ahead by less than 2^63 modulo 2^64, the singular point excluded |
| `Replay.StepAdvance` | apps/dhcp6/dhcp6s.c:3697-3712 | only an accepted message other than a Solicit advances the counter, by less than 2^63 |
| `Replay.AdvanceAddsUp` | apps/dhcp6/dhcp6s.c:3590-3712 | the remembered counter is the first one plus all advances, modulo 2^64 |
| `Replay.ReplayRejected` | apps/dhcp6/dhcp6s.c:3590-3608 | a counter that was accepted is rejected later if and only if the advances since, modulo 2^64, are at most 2^63 |
| `Replay.NoReplay` | apps/dhcp6/dhcp6s.c:3590-3712 | while the advances are at most 2^63 a repeated message is refused and changes nothing |
| `Replay.ClientAuth.CheckKey` | apps/dhcp6/dhcp6s.c:3609-3660 | true exactly for a message that names the client's unexpired key and its realm and whose MAC is right |
| `Replay.ClientAuth.ProcessAuth` | apps/dhcp6/dhcp6s.c:3549-3714 | for a message with an authentication option: accepted and remembered exactly as the specification says, with the tests of protocol, key, realm, expiry and MAC, and the buffer left as it was |
| `Replay.AcceptedExactly` | apps/dhcp6/dhcp6s.c:3549-3714 | a message that is no Solicit is accepted if and only if protocol, algorithm and method are the known ones, the key exists, its id and realm are those named, it has not expired, the sixteen bytes lie inside the message and are its HMAC, and the counter is ahead |
| `Replay.RememberedExactly` | apps/dhcp6/dhcp6s.c:3549-3714 | the counter is remembered if and only if the message is accepted and is no Solicit |
| `Base64.DecodeEncode` | apps/dhcp6/base64.c:92-142 | decoding undoes encoding, for every byte string |
| `Base64.CanonicalOnly` | apps/dhcp6/base64.c:92-142 | a string decodes to given bytes if and only if it is their canonical encoding |
| `Base64.DecodeCtx.DecodeChar` | apps/dhcp6/base64.c:71-142 | one character in the context: what the rest of the text decodes to is carried on unchanged, and a refusal means that it cannot decode within the buffer |
| `Base64.DecodeString` | apps/dhcp6/base64.c:155-172 | the loop decodes the text without white space, within the room of the result buffer |
| `Base64.DecodesExactly` | apps/dhcp6/base64.c:155-172 | accepted if and only if the text without white space is a canonical encoding that leaves room in the buffer, and then its bytes are returned |
| `Md5.Context.constructor` | apps/dhcp6/auth.c:306-315 | a new context has read nothing |
| `Md5.Context.AddCount` | apps/dhcp6/auth.c:432-436 | the two-word counter with carry counts bytes modulo 2^64 |
| `Md5.Context.Chunks` | apps/dhcp6/auth.c:450-457 | full blocks go through the transform, the context has then read them |
| `Md5.Context.Update` | apps/dhcp6/auth.c:428-461 | the context after any number of bytes is the fold over the whole blocks and the rest in its buffer |
| `Md5.Context.Pad` | apps/dhcp6/auth.c:471-488 | padding ends the message with the bit count, in one more block if it does not fit |
| `Md5.Context.Final` | apps/dhcp6/auth.c:468-497 | yields the digest of all bytes read |
| `Md5.DigestOfParts` | apps/dhcp6/auth.c:428-497 | however a message is split into updates, the result is the fold of the transform over the padded message |
| `Md5.PaddedLayout` | apps/dhcp6/auth.c:468-488 | the padded message is the message, 0x80, zeros and the bit count, a whole number of blocks |
| `Md5.DigestLayout` | apps/dhcp6/auth.c:490-497 | the digest is the four words in order, each with its low byte first |
| `Md5.EmptyDigest` | apps/dhcp6/auth.c:306-497 | the digest of nothing is one transform of the four initial words and a block of 0x80 and zeros |
| `Hmac.HmacContext.constructor` | apps/dhcp6/auth.c:199-218 | a key of any length becomes a 64-byte block, hashed first if longer |
| `Hmac.HmacContext.Update` | apps/dhcp6/auth.c:233-236 | the context has read the bytes after the inner pad |
| `Hmac.HmacContext.Sign` | apps/dhcp6/auth.c:242-258 | yields the HMAC of everything read |
| `Hmac.HmacOfParts` | apps/dhcp6/auth.c:199-258 | however the text is split, the result is the HMAC of section 2 of RFC 2104 |
| `Hmac.HmacFormula` | apps/dhcp6/auth.c:199-258 | the digest of the key block under 0x5c and the digest of the key block under 0x36 and the text |
| `Hmac.CalcMac` | apps/dhcp6/auth.c:123-152 | writes the HMAC of the whole buffer at the offset, or refuses and changes nothing |
| `Hmac.VerifyMac` | apps/dhcp6/auth.c:155-189 | succeeds exactly for an authentic message and leaves the buffer as it was |
| `Hmac.SignedIsAuthentic` | apps/dhcp6/auth.c:123-189 | a message signed with a cleared field is authentic; without clearing, exactly if the two HMACs agree |
| `Names.NameRoundTrip` | apps/dhcp6/common.c:1907-1955 | decoding an encoded name, with anything behind it, gives the name in lower case with one trailing dot, and the rest |
| `Names.CanonEncodesAlike` | apps/dhcp6/common.c:2588-2645 | a name and its canonical form have the same encoding |
| `Names.ListRoundTrip` | apps/dhcp6/common.c:428-525 | a list of names comes back in canonical form; empty names are lost |
| `Names.ListReencodes` | apps/dhcp6/common.c:428-525 | what was decoded encodes to the identical bytes |
| `Names.EstimateSuffices` | apps/dhcp6/common.c:481-514 | the buffer the list writer allocates is always large enough |
| `Names.EncodeName` | apps/dhcp6/common.c:2588-2645 | the encoder loop, with its 255-byte buffer, gives the encoding that is proved to come back, or fails for a bad label or a long name |
| `Names.DecodeName` | apps/dhcp6/common.c:1907-1955 | the decoder loop, with its name buffer, fails exactly where the specification does |
| `NameLabels.DecodesExactly` | apps/dhcp6/common.c:1907-1955 | on any bytes: succeeds exactly on the wire form of labels of one to 63 printable characters, closed by a zero byte, whose text fits 255 bytes, and gives that text and what follows |
| `Names.SetDomain` | apps/dhcp6/common.c:467-525 | the list writer loop gives the concatenated encodings, or fails for a name that has none |
| `Names.GetDomain` | apps/dhcp6/common.c:428-464 | the list reader loop gives the names of the whole option, or fails at a malformed one |
| `Wire.MaskedTwice` | apps/dhcp6/common.c:850-864 | masking a prefix is idempotent |
| `Wire.Prefix6Mask` | apps/dhcp6/common.c:850-864 | the loop clears exactly the bits behind the prefix length |
| `Wire.OptReads` | apps/dhcp6/common.c:2231-2256 | a written option reads back with its code, length and contents |
| `Wire.HeadReads` | apps/dhcp6/common.c:1990-2145 | the fixed part of each kind of sub-option reads back |
| `Wire.SubsRoundTrip` | apps/dhcp6/common.c:1958-2155 | sub-option trees of any size come back from the bytes written for them |
| `Codec.CopyInOption` | apps/dhcp6/common.c:1958-2155 | the recursive reader, with its duplicate checks and refusals, computes what the round trip and `WireSound.CopyInSound` are proved about |
| `WireSound.CopyInSound` | apps/dhcp6/common.c:1958-2155 | on any bytes: what is taken over is well-formed at every level, of kinds allowed there, no two equal, prefixes at most 128 bits long with their padding clear, and takes no more room than it came in |
| `WireSound.ReadAllowed` | apps/dhcp6/common.c:1958-2155 | one option: allowed where it stands, of the code it came with, its fixed part inside the option |
| `WireSound.PaddingIgnored` | apps/dhcp6/common.c:2020-2021 | a prefix is read as if its padding bits had been sent clear |
| `WireSound.MaskedBits` | apps/dhcp6/common.c:850-864 | of a byte the leading bits are kept and the others cleared |
| `Codec.CountOption` | apps/dhcp6/common.c:2657-2740 | the counting pass returns the exact length |
| `Codec.CopyOutOption` | apps/dhcp6/common.c:2657-2796 | the writing pass succeeds exactly when the counted length fits, fills exactly those bytes, and touches nothing outside its room |
| `Codec.SetIas` | apps/dhcp6/common.c:2284-2313 | each IA is counted, written into a buffer of that size and appended |
| `Codec.GetAddr` | apps/dhcp6/common.c:357-390 | address lists are read without repetitions; odd lengths are refused |
| `Codec.SetAddr` | apps/dhcp6/common.c:393-425 | address lists are written in order |
| `Codec.GetIa` | apps/dhcp6/common.c:1785-1886 | an IA is added with its sub-options, unless its IAID is there already |
| `Codec.GetOptions` | apps/dhcp6/common.c:1496-1904 | the parser loop, with all its refusals, computes what the round trip and `OptionsSound.ParseSound` are proved about |
| `OptionsSound.ParseSound` | apps/dhcp6/common.c:1496-1904 | on any bytes: IAs well-formed, no two of one identifier, no number or address twice in a list, a refresh time of at least ten minutes, at most one complete authentication option |
| `OptionsSound.ReadWrittenRead` | apps/dhcp6/common.c:1496-1904 | what was parsed, written and parsed again is the same, provided the encoder takes its names; these come back in canonical form, and an empty relayed message is lost |
| `OptionsSound.MacInside` | apps/dhcp6/common.c:1642-1718 | in any bytes the parser accepts, the MAC it locates lies inside them |
| `OptionRules.LengthDecides` | apps/dhcp6/common.c:1496-1904 | which lengths are accepted for each option, and that unknown ones are passed over |
| `OptionRules.IaDecides` | apps/dhcp6/common.c:1785-1886 | an IA is accepted if and only if it has its three numbers and is known already or has readable sub-options |
| `OptionRules.FirstCounts` | apps/dhcp6/common.c:1611-1635 | of a repeated preference, elapsed time or refresh time the first counts |
| `OptionRules.LastCounts` | apps/dhcp6/common.c:1537-1559 | of a repeated identifier, relayed message or interface the last counts |
| `OptionRules.OneAuth` | apps/dhcp6/common.c:1642-1656 | a second authentication option makes the message malformed |
| `OptionRules.ListsJoin` | apps/dhcp6/common.c:1578-1610 | requested options and server addresses in two options count as in one |
| `Codec.SetOptions` | apps/dhcp6/common.c:2259-2584 | the writer: bytes and MAC offset; refused exactly for names that cannot be encoded or an unknown authentication protocol |
| `Options.MergeKeepsAll` | apps/dhcp6/common.c:1593-1606 | dropping repeated values loses nothing and leaves no repetition |
| `Options.SlotParses` | apps/dhcp6/common.c:1536-1893 | the parser, on what is written for one part of a set, takes over exactly that part |
| `Options.SlotsParse` | apps/dhcp6/common.c:1496-1904 | parts written in any order are read back |
| `Options.OptionsRoundTrip` | apps/dhcp6/common.c:1496-1904 | parsing the bytes written for any well-formed set gives the set as its reader sees it, whatever the MAC |
| `Options.SeenUnchanged` | apps/dhcp6/common.c:2259-2584 | for a set without repetitions and with canonical names that is the set itself, with the MAC located |
| `Options.MacStandsLast` | apps/dhcp6/common.c:2498-2573 | the offset writer and parser compute is where the MAC stands: the last sixteen bytes, and no other byte depends on it |
| `Messages.MacFits` | apps/dhcp6/dhcp6s.c:2752-2776 | the field handed to the signer is inside the message and zero |
| `Messages.SignedMessage` | apps/dhcp6/dhcp6s.c:2752-2782 | a signed message parses to the same options, with the signer's offset, is authentic, and is accepted if and only if its algorithm is HMAC-MD5 |
| `Messages.SignedOnceAccepted` | apps/dhcp6/dhcp6s.c:3590-3714 | a message signed with the client's key is accepted if and only if its counter is ahead; the same bytes are then refused while the accepted counters advance by at most 2^63 |
| `Messages.BuildSigned` | apps/dhcp6/dhcp6c.c:1205-1335 | for HMAC-MD5 the buffer is the unsigned message with its HMAC in the zeroed field at the writer's offset; any other algorithm is refused |
| `Messages.Receive` | apps/dhcp6/dhcp6s.c:3640-3660 | accepts exactly an authentic HMAC-MD5 message, at the offset the parser found, and leaves the buffer as it was |
| `Messages.ReceivedExactly` | apps/dhcp6/dhcp6s.c:3640-3660 | on any bytes: accepted if and only if the options can be read and the sixteen bytes they point at, which always lie inside, are the HMAC of the message with them cleared |
| `Relay.Peel` | apps/dhcp6/dhcp6s.c:1062-1090 | the message inside a relay message is a proper part of it |
| `Relay.RelayedIsInside` | apps/dhcp6/common.c:1636-1641 | a relayed message is shorter than what carries it, so unwrapping ends |
| `Relay.PeelWrap` | apps/dhcp6/dhcp6s.c:2790-2825 | taking a layer off undoes wrapping |
| `Relay.UnwrapIsLayers` | apps/dhcp6/dhcp6s.c:1050-1140 | the server collects the layers of the chain from the inside out |
| `Relay.LayersOfWrapped` | apps/dhcp6/dhcp6s.c:2784-2828 | a wrapped message comes apart into the layers it was wrapped in |
| `Relay.ReplyRetraces` | apps/dhcp6/dhcp6s.c:2784-2828 | the reply chain carries, outermost first, the same hop counts, addresses and interface IDs as the message answered, at any depth |
| `Relay.ProcessRelayForw` | apps/dhcp6/dhcp6s.c:1050-1140 | the unwrapping loop returns the layers from the inside out and the innermost message, or refuses a malformed layer |
| `Relay.BuildChain` | apps/dhcp6/dhcp6s.c:2784-2828 | the wrapping loop builds the chain that `Relay.ReplyRetraces` is about |
| `RelayPath.Forward` | apps/dhcp6/dhcp6relay.c:757-865 | no relay sends a hop count above 32 |
| `RelayPath.HopsFrom` | apps/dhcp6/dhcp6relay.c:833-856 | a relayed message goes on exactly while its hop count allows |
| `RelayPath.HopLimit` | apps/dhcp6/dhcp6relay.c:833-861 | a client's message gets through if and only if its type may be relayed, the first relay has a global address and there are at most 33 relays; hop counts are positions |
| `RelayPath.PathInfoAt` | apps/dhcp6/dhcp6relay.c:799-861 | each relay notes sender and interface of the message; only the one next to the client gives a link address |
| `RelayPath.ReplyReachesClient` | apps/dhcp6/dhcp6relay.c:913-1059 | end to end through any number of relays: the server gets the client's message, and the reply goes back over the same interfaces and addresses |
| `RelayPath.RelayToServer` | apps/dhcp6/dhcp6relay.c:757-872 | the header filled field by field and the options give the wrapped message, or nothing at the hop limit or without a link address |
| `RelayPath.ForwardedExactly` | apps/dhcp6/dhcp6relay.c:757-872 | exactly the messages clients and relays send go on, the first relay needing a global address and the others a hop count below the limit |
| `RelayPath.BackDecided` | apps/dhcp6/dhcp6relay.c:914-1059 | a layer of a reply, whoever built it: an interface identifier of another length or unknown stops it, a known one says where it goes, otherwise the link address does if it can |
| `ClientIa.TimesOrdered` | apps/dhcp6/dhcp6c_ia.c:213-255 | T1 is at most T2, T2 is at least 30, and an infinite T1 has an infinite T2, for all 32-bit values and however products wrap |
| `ClientIa.GivenTimesKept` | apps/dhcp6/dhcp6c_ia.c:213-255 | times the server chose are kept if and only if T2 is at least 30 |
| `ClientIa.LocalT2` | apps/dhcp6/dhcp6c_ia.c:229-234 | the local T2 is four fifths of the duration if and only if the duration is below 2^30; otherwise it falls short |
| `ClientIa.LocalTimes` | apps/dhcp6/dhcp6c_ia.c:213-255 | times left to the client are a half and four fifths of the duration if and only if it is from 38 up to 2^30 |
| `ClientIa.LocalT2Wraps` | apps/dhcp6/dhcp6c_ia.c:229-255 | a duration of 2^30 seconds makes the client rebind after 30 seconds |
| `ClientIa.Unanswered` | apps/dhcp6/dhcp6c_ia.c:568-587 | an unanswered IA starts Renew at T1 and Rebind exactly at T2, or never with an infinite T1 |
| `ClientIa.TimerIsSound` | apps/dhcp6/dhcp6c_ia.c:568-596 | after any replies and expiries the timer never fires in Rebind, and while it runs T1 is finite, at most T2, and T2 at least 30 |
| `ClientIa.Ia.Update` | apps/dhcp6/dhcp6c_ia.c:124-273 | in place, every branch: refused times change nothing, NoBinding for a Renew or Rebind stops the timer, an invalid IA is removed, otherwise T1 at most T2, T2 at least 30 and the timer at T1 |
| `ClientIa.PartlyGiven` | apps/dhcp6/dhcp6c_ia.c:213-255 | which of T1 and T2 is derived when the server gives only one, for times and durations below 2^29 seconds; `ClientIa.LocalT2` has the rest |
| `ClientIa.ReplyCases` | apps/dhcp6/dhcp6c_ia.c:124-273 | every kind of reply: refused, NoBinding, invalidating, and starting the times anew |
| `ClientIa.QuietAfterNoBinding` | apps/dhcp6/dhcp6c_ia.c:124-273 | after NoBinding the IA sends nothing more until an answer with news |
| `ClientIa.Ia.Timeout` | apps/dhcp6/dhcp6c_ia.c:546-587 | the timer in place goes from Active to Renew and from Renew to Rebind, as in `ClientIa.Unanswered` |
| `Retransmit.FirstRt` | apps/dhcp6/common.c:2843-2891 | the first wait is within a tenth of the initial time |
| `Retransmit.RtExact` | apps/dhcp6/common.c:2843-2891 | every wait exactly: the initial time or twice the last, with its random part, cut at the maximum |
| `Retransmit.ParamsTable` | apps/dhcp6/common.c:2799-2840 | the initial time is positive, the maximum missing (Release) or at least thirty times as long, and only Request and Release have a limit of transmissions, ten and five |
| `Retransmit.FirstSolicit` | apps/dhcp6/common.c:2866-2886 | the first wait of a Solicit is above its initial time if and only if truncation does not bring it back; it is never below |
| `Retransmit.Backoff` | apps/dhcp6/common.c:2876-2886 | each wait is 1.9 to 2.1 times the one before, less at most one, or within a tenth of the maximum |
| `Retransmit.NextRtOk` | apps/dhcp6/common.c:2843-2891 | the bounds of a wait carry over to the next |
| `Retransmit.SettlesNearMax` | apps/dhcp6/common.c:2884-2886 | from the eighth timeout on every wait is within a tenth of the maximum |
| `Retransmit.StepKeepsInv` | apps/dhcp6/dhcp6c.c:805-906 | every event keeps: one message and one transaction identifier since the exchange began, the count of its transmissions, the bounds of the wait |
| `Retransmit.Exchange` | apps/dhcp6/dhcp6c.c:805-906 | every exchange of every run: one transaction identifier, at most ten Requests and five Releases, exactly that many when giving up, computed waits within their bounds, and the timer set back by the first Advertise to no less than the initial time |
| `Retransmit.FirstAdvertise` | apps/dhcp6/dhcp6c.c:1651-1674 | the first Advertise of a lower preference lets the timer run until the initial time since the transmission, or fire at once if that is over; later ones do not touch it |
| `Retransmit.WholeRun` | apps/dhcp6/dhcp6c.c:1556-1650 | a whole run has one identifier for each kind of message, at most ten Requests and five Releases, whatever identifiers are drawn, if and only if no Advertise of the highest preference meets a running Request |
| `Retransmit.RestartedRequest` | apps/dhcp6/dhcp6c.c:1621-1650 | the input: such an Advertise makes the Request start over with another identifier |
| `Retransmit.RequestsUnbounded` | apps/dhcp6/dhcp6c.c:1621-1650 | each such Advertise adds a Request, without bound |
| `Retransmit.ClientEvent.ResetTimer` | apps/dhcp6/common.c:2843-2891 | the wait computed in place is the next one of the recurrence |
| `Retransmit.ClientEvent.Send` | apps/dhcp6/dhcp6c.c:1187-1208 | a new transaction identifier only for a first transmission |
| `Retransmit.ClientEvent.Timo` | apps/dhcp6/dhcp6c.c:805-906 | the timer routine is the step of the specification, whose effect `Retransmit.Expiry` spells out for every state |
| `Retransmit.Expiry` | apps/dhcp6/dhcp6c.c:805-906 | what a timeout does in every state: a Solicit that has heard a server becomes a Request with a fresh identifier, restarted counters and the Request's parameters; one that has not is sent again with the same identifier |
| `Retransmit.AdvertiseHeard` | apps/dhcp6/dhcp6c.c:861-898 | an Advertise is remembered and sends nothing, but one of the highest preference is answered at once by a Request with a fresh identifier and the Request's parameters |
| `Retransmit.SolicitsEnd` | apps/dhcp6/dhcp6c.c:805-906 | over any run, no Solicit is sent once a server has been heard, but for the first message of an event that heard one before it sent any |
| `Retransmit.ClientEvent.RecvAdvert` | apps/dhcp6/dhcp6c.c:1555-1674 | in every state: the highest preference starts a Request at once, another first server sets the timer back |

## Left out

- The MD5 block transform: it is a parameter of `Md5` and `Hmac`, an arbitrary function on four words and a block.
- Messages without an authentication option, which the server accepts as they are: `Replay` is about those that carry one.
- Linked lists and memory: bindings and option lists are sequences of values, so sharing of nodes and freeing are not modelled, and allocation always succeeds.
- Room in the message buffer: the test in `copy_option` (apps/dhcp6/common.c:2240) measures from the address of its cursor variable, so the output is a sequence that grows and no claim is made about its end.
- A client without a host entry, and a Renew or Rebind of a binding that names nothing of its kind: `make_ia` and `calc_ia_timo` read what is missing there, so their methods require it.
- Pool.GetFreeAddress: for a pool that ends in all ones the loop ends only because some address is usable, which is required of such pools here and in the server's methods; `PoolRoom.UsableExists` shows it for fewer than 2^120 leases.
- Lease.LeaseTable.Add: requires that the address is not in the table, as its one caller has tested.
- ClientIa.Ia.Update: addresses and prefixes of the IA are an input, as is whether its configuration is valid after them.
- Server.BindingTable.UpdateBindingIa: requires of an IA that has a binding that it names at least one value of its kind, because the routine would otherwise read the head of an empty list.
- Hosts.HostTable.Create: requires that the DUID is not in the table, as both callers look it up first; entries made there never carry a key.
- ClientIa.Ia.Timeout: covers the timer and the phase; the event it creates is started in `Retransmit`.
- Retransmit.ClientEvent.ResetTimer: the random factor is an exact rational, rounding of double precision is not modelled.
- Retransmit.ClientEvent.Timo: a failure to construct the data of a Request is not modelled.
- Retransmit.ClientEvent.RecvAdvert: the checks that match an Advertise to an event and its authentication are not part of it, and clock readings are whole milliseconds.
- Messages.Receive: the tests of realm, key and expiry around the MAC check are not part of it.
- RelayPath.RelayToServer: which global address an interface has is an input, and sending is left out.
- Messages of 64 KiB and more: what goes into an option must fit its 16-bit length (`Options.Wf`, `Relay.Fits`).
- Signed and unsigned plain char: bytes are unsigned.
- Server reload, sockets, select loops, address configuration, control message framing, DUID files, logging.
- The configuration parser, `addrconf.c` and `prefixconf.c`: mostly calls into the system.
- Information-request, Reconfigure, and the stateless options the server adds to replies: they would add easy members only.
- The other applications of the repository: devices, graphics and threads around system calls.
