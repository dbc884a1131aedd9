# VXLAN ARP reconciliation, modelled in Dafny

This project models the ARP-table reconciliation of the VXLAN overlay driver
(`vxlan/arp_utils.go`). The driver keeps a link's kernel neighbor table in line
with the IP -> MAC table held by the control plane, in three steps:

- **Current state** (`getCurrentARPEntries`). The kernel's IPv4 neighbor list
  for the link is filtered down to the entries inside at least one subnet of
  interest. The result is keyed by the entry's dotted-decimal address.
- **Desired state** (`getDesiredARPEntries`). The control plane's table
  becomes permanent (`NUD_PERMANENT`), self-owned (`NTF_SELF`) neighbor
  entries on the link, keyed by the table's own strings.
- **Reconciliation** (`updateARP`). Phase A walks the current entries:
  - a key also desired with a different MAC is updated in place (`NeighSet`);
  - a key also desired with the same MAC needs nothing;
  - in both of those cases the key is struck from the working desired table;
  - a key not desired is deleted (`NeighDel`).

  Phase B adds whatever is left of the desired table (`NeighAdd`). A failed
  write never stops the pass.

Modules, one per file:

- `Wrappers`: `Option` and `Result`.
- `IPv4`: octets, subnet containment under a mask, CIDR masks, and the
  dotted-decimal form with a proof that it is injective.
- `Neighbor`: the neighbor record, the kernel constants and the table type.
- `CurrentState`: the subnet filter.
- `DesiredState`: the builder.
- `Reconciler`: the two-phase pass, its error value, and the effect of a pass
  on the table.
- `Scenarios`: a small worked instance of the filter.

The kernel is not modelled. The neighbor listing is an input `Result`. Every
write becomes an `Attempt` appended to a log, and its outcome comes from an
oracle `succeeds: Op -> bool`. Go's unspecified map iteration order is modelled
by choosing the next key nondeterministically (`:|`), so each property holds
for every order.

## Model

| member | source | states |
|---|---|---|
| IPv4.CidrContainsIffPrefix | vxlan/arp_utils.go:21 | A subnet with a CIDR mask of p bits contains an address exactly when the address's first p bits equal the network's. |
| IPv4.DottedInjective | vxlan/arp_utils.go:23 | Two IPv4 addresses with the same dotted-decimal key are the same address, so a key names one address. |
| CurrentState.RecordMatches | vxlan/arp_utils.go:20-24 | The inner loop over subnets stores the neighbor under its key exactly when some subnet contains it. It stores it once however many match, and otherwise leaves the table alone. |
| CurrentState.Filter | vxlan/arp_utils.go:18-26 | Every in-subnet neighbor's key is present. Every present key holds the last listed in-subnet neighbor with that key. |
| CurrentState.CurrentEntries | vxlan/arp_utils.go:11-29 | A failed listing returns its error and no table. Otherwise a key is present if and only if some listed neighbor inside some subnet has that key, and it holds the last such neighbor listed. |
| CurrentState.StoredEntryHasItsAddress | vxlan/arp_utils.go:19-24 | An in-subnet neighbor's key is present and the entry stored there carries that neighbor's address. |
| DesiredState.DesiredEntries | vxlan/arp_utils.go:32-46 | The output has exactly the input's keys. Every entry is permanent, self-owned, on the given link, carries the input MAC for its key, and has the parsed key as its address. |
| DesiredState.DesiredMacTableRoundTrip | vxlan/arp_utils.go:35-43 | Reading the MAC table back out of the built entries gives the input table. |
| Reconciler.Partition | vxlan/arp_utils.go:52-80 | Updates, in-sync, stale and missing keys are pairwise disjoint and together cover the keys of both tables. |
| Reconciler.Issue | vxlan/arp_utils.go:76-80 | One write is appended with the oracle's outcome. A failure extends the corrected error (see Findings), and the pass goes on either way. |
| Reconciler.VisitCurrent | vxlan/arp_utils.go:53-72 | One phase-A step issues the planned write for the key, if any. It strikes the key from the working desired table exactly when the key is desired. |
| Reconciler.ReconcileCurrent | vxlan/arp_utils.go:52-73 | Phase A issues exactly the planned write of every current key, once each. It leaves the desired table reduced to the keys absent from the current one. |
| Reconciler.AddMissing | vxlan/arp_utils.go:75-81 | Phase B issues exactly one Add, with the desired entry, for every leftover key. |
| Reconciler.UpdateARP | vxlan/arp_utils.go:49-84 | The log holds exactly one planned write per key that needs one and none for the rest. Outcomes come from the oracle. All Set and Del writes precede all Add writes. The desired table ends as its keys absent from the current one. The error reports every failed write and is empty if and only if all succeeded. The log is empty if and only if the tables have converged. |
| Reconciler.ReconcilesByClass | vxlan/arp_utils.go:52-80 | A MAC change gets one Set with the desired entry and a stale key one Del with the current entry. A missing key gets one Add with the desired entry, an in-sync key gets nothing, and no key is written twice. |
| Reconciler.ConvergedIffNothingPlanned | vxlan/arp_utils.go:55-75 | The tables agree on keys and MACs if and only if no key calls for a write. |
| Reconciler.ReconcilesEmptyIffConverged | vxlan/arp_utils.go:52-81 | A reconciliation issues no write if and only if the tables already agree on keys and MACs. |
| Reconciler.NoFailedOpsIffAllOk | vxlan/arp_utils.go:59-80 | The failed writes of a log are none if and only if every attempt succeeded. |
| Reconciler.AggregateReportsFailures | vxlan/arp_utils.go:50-83 | The corrected error value reports exactly the failed writes, in the order they were issued. |
| Reconciler.AggregateNilIffAllOk | vxlan/arp_utils.go:50-83 | The corrected error value is nil if and only if every write succeeded. |
| Reconciler.AsWrittenReportsNothing | vxlan/arp_utils.go:50-83 | As written, the returned error is nil whatever fails. |
| Reconciler.AsWrittenDropsFailures | vxlan/arp_utils.go:50-83 | Given a pass with at least one failed write, the corrected error is not nil but the error as written is. |
| Reconciler.ApplyAttempt | vxlan/arp_utils.go:58-76 | A successful write sets or removes its own key. A failed write changes nothing, and other keys are untouched. |
| Reconciler.ApplyLogAtKey | vxlan/arp_utils.go:52-81 | A key written once by a pass ends up as that one write left it. |
| Reconciler.RerunRetriesExactlyFailures | vxlan/arp_utils.go:49-84 | Planning again over the table the pass leaves behind, with its successful writes applied, plans exactly the writes that failed, unchanged. |
| Reconciler.SuccessfulPassConverges | vxlan/arp_utils.go:49-84 | A pass in which every write succeeds leaves a table that has converged on the desired one, so planning again over that table issues nothing. |
| Scenarios.FilterKeepsOnlySubnetMembers | vxlan/arp_utils.go:19-24 | Listing 10.0.0.5 and 192.168.1.1 against 10.0.0.0/24 keeps only the key "10.0.0.5". |

## Left out

- The netlink calls `NeighList`, `NeighSet`, `NeighDel` and `NeighAdd` are kernel I/O. The listing is an input `Result`, and each write is a log entry whose outcome comes from the `succeeds` oracle. `ApplyLog` is the assumed kernel effect of the successful writes, used only for the rerun lemmas.
- The error text that the kernel returns is not modelled. A failure is recorded by the write that failed, not by its message.
- Logging (`log.Debugf`, `log.Errorf`) is a side channel and is omitted.
- `net.ParseIP` is the function parameter `parse`. Its parsing rules are not modelled.
- `HardwareAddr.String()` is injective on byte strings, so the comparison at line 55 is modelled as equality of the MAC bytes.
- IPv6 addresses and subnets are omitted. An address without a 4-byte form is `None`, is contained in no subnet, and has the key "<nil>".
- Nil subnet pointers are omitted. `(*net.IPNet).Contains` would dereference them, so the model takes subnets as values.
- The other fields of `netlink.Neigh` are not modelled. Neither is the difference between the pointers the code stores and the values the model stores.
- Key canonicalisation is not modelled. Desired keys are taken exactly as given, and the model claims nothing about two spellings of one address.
- Concurrency between passes is not modelled.
- Reconciler.UpdateARP: it returns the corrected error value (see Findings), not the nil the code returns as written.
- Reconciler.Issue: it wraps every failure into the corrected error value (see Findings), not through the nil-preserving `errors.Wrap` of lines 61, 70 and 79.
- Reconciler.VisitCurrent: its error is the corrected aggregation of the log so far, for the same reason as `Reconciler.Issue`.
- Reconciler.ReconcileCurrent: its error is the corrected aggregation of phase A's log, for the same reason as `Reconciler.Issue`.
- Reconciler.AddMissing: its error is the corrected aggregation of the whole log, for the same reason as `Reconciler.Issue`.
- Reconciler.RerunRetriesExactlyFailures: the second pass is planned over `ApplyLog(current, log)`, not over a re-read of the kernel through the subnet filter. That re-read drops every entry outside all subnets and keys entries by their dotted-decimal form, so a desired key outside every subnet, or not in canonical dotted form, is planned again after its successful Add.
- Reconciler.SuccessfulPassConverges: convergence is stated for `ApplyLog(current, log)`, not for the table the next pass re-reads. The two differ for the desired keys described in the line above.

## Findings

| source | as written | input that shows it | evidently intended | confidence | as-written member | corrected member |
|---|---|---|---|---|---|---|
| vxlan/arp_utils.go:50-83 | `e` starts nil and is only ever updated as `errors.Wrap(e, msg)`. Wrapping a nil error yields nil, so `updateARP` always returns nil. | Any pass in which a write fails, for instance one whose only write, a `NeighAdd`, fails | The returned error reports every failed write and is nil only when all succeed | high, relying on the documented contract of `errors.Wrap`; not executed | Reconciler.AsWrittenDropsFailures | Reconciler.AggregateReportsFailures |

`errors.Wrap` belongs to `github.com/pkg/errors`, which is not part of this
model. Its documented behaviour (wrapping nil returns nil) is encoded in
`Reconciler.WrapAsWritten`. `Reconciler.AsWrittenReportsNothing` proves that the
as-written error is nil for every log. `Reconciler.Aggregate` wraps the error so
far around each failure, and `Reconciler.UpdateARP` uses it.
