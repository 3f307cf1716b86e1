# A verified model of libhbalinux

libhbalinux is the Linux vendor library behind the SNIA HBA-API: it reads Fibre Channel
adapters, local ports, discovered remote ports and logical units from sysfs, from PCI
configuration space and from SCSI inquiries, and answers HBA-API calls about them. This
project models the parts of it that compute something, and proves what they compute for
every input. `dafny verify dfyconfig.toml` checks all of it.

## What is modelled

**Choosing a designator** (`DeviceId.dfy`, sg.c). A Device Identification page is a list of
variable-length descriptors in a byte buffer. The library walks the list with a running best,
moves the best descriptor to the front of the same buffer and clears the rest. The result is
described without the walk: the candidate that no other is preferred to, the earliest among
equals, followed by zeros; without a candidate the response stays as it came (the comment at
sg.c:97 says the buffer is left empty; the code leaves the response). The preference is a
strict order that is total up to equal type and designator, so the order of the descriptors
on the page would not matter, were all of them seen. Two things keep a descriptor from being
seen: an empty designator in last place, and the end of the bytes returned, which an inquiry
limits to 255. For pages returned whole, two orders of the same descriptors leave the same
type, length, designator and padding exactly when both or neither of them end in the best
candidate with an empty designator. For any cut of a page, what is left is the best of the
whole list exactly when that is visible in the bytes returned.

**The growing table** (`SaTable.dfy`, utils.h, utils.c). A class with the three fields of the
C structure; the reallocated memory is a sequence that the methods reassign, and whether there
is memory is an input of every operation. Any run of operations on it is the run on a finite
map from index to entry, with realloc called exactly as often as the size requires, and
listing it by number gives the live entries once each, in index order.

**Remote ports** (`Rports.dfy`, `Ports.dfy`, `Books.dfy`, `Registry.dfy`, `Sessions.dfy`,
rport.c, adapt.c). Remote ports are scanned once into a global table and claimed by local
ports on demand. `Rports` computes from the scanned list alone what a query should answer: the
records of a host and channel in increasing rport number, a later record of the same name
replacing an earlier one. `Books` keeps an account of the claims as a value: which local port
claimed which host and channel, what each remote port points to, what each local table holds
and which inserts failed. Its invariant holds at every moment, also in the middle of a claim,
and all ownership properties are lemmas about it. `Registry` has the tables and pointers
themselves and proves step by step that they are as in the account. Every allocation may
fail, unless the registry is given `ample` memory: the scan is described for every outcome of
its allocations, `clean` says that all of them succeeded, and with ample memory it stays true.
So every answer is pinned down in all circumstances. `Sessions` puts it together: a fresh
registry, hosts of distinct numbers and any requests in any order. With ample memory all hosts
are loaded and every answer is the one computed from the sysfs directory and the hosts alone;
in any case it is so for the loaded hosts as long as no allocation fails.

**Adapters** (`Adapters.dfy`, `AdapterNames.dfy`, adapt.c). Handles, printed names, opening
by name and by world wide name, loading a host, queries by handle, and unloading everything.
Opening a printed name always gives back the adapter that printed it, since a loaded adapter
is called after a network interface and the index is never cut off.

**Target mapping** (`TargetMapping.dfy`, bind.c). A reader with a limit walks a directory of
`host:channel:target:lun` names, counts the matches and describes the first of them, asking
the registry for the remote port of each. The result is described by the filter of the
directory in read order.

**The capability walk** (`PciWalk.dfy`, pci.c). Two nested linked-list walks without a record
of what was visited. As a machine on configuration space the walk ends exactly when no chain
comes back to an offset, and then within 4352 steps; its result is the serial number of the
first capability of that kind in chain order.

**Text** (`CText.dfy`, `SpeedList.dfy`, `ClassList.dfy`, `PciPath.dfy`, `SafeCopy.dfy`). The
list of speeds (whose table cursor never moves back, so a list out of table order is cut
short), the list of classes, the search for a PCI address in a link, and the printable copy.
`CText` has strtoul and sscanf as glibc reads numbers, and the round trip from printf.

The small definitions everything else is stated with (the comparison of descriptors, the name
filter, what a query accepts, the matches of a name, the words of a serial number, the formats
and tables of texts) each have a theorem that says what they mean in numbers, bytes or literal
texts, without naming them.

Flag words are the sets of their one bits. World wide names are 64-bit numbers. The invariants
of the registry and of the library are stated as one fact that a proof spells out where it
mentions `SteadyInFull` or `ReadyInFull`, which keeps the proofs that only pass them on short.

## Model

| member | source | states |
|---|---|---|
| DeviceId.IssueInquiry | sg.c:40-86 | The request is clamped to 255 bytes; the buffer holds zeros overwritten by what arrived and nothing past the request changes; the reported length is the request less the residual, or 0 after a failure |
| DeviceId.BetterIsStrictOrder | sg.c:138-147 | The comparison of descriptors is asymmetric, transitive and irreflexive, and total up to equal type and designator bytes |
| DeviceId.FirstDifference | sg.c:138-147 | Designators of one length compare by their first differing byte |
| DeviceId.ChoiceComesFirst | sg.c:135-147 | In numbers: the chosen descriptor has a type up to 3, the largest of those; among equals the shortest designator; among those the one that is smaller at the first differing byte; among the same the earliest |
| DeviceId.ChooseIsChoice | sg.c:128-148 | The running best is the candidate no other is preferred to, the earliest among ties; there is none exactly when no descriptor has a type up to NAA |
| DeviceId.ChoiceUnique | sg.c:128-148 | At most one position satisfies that description |
| DeviceId.ChoiceIgnoresOrder | sg.c:138-147 | Permuting a descriptor list never changes the chosen type and designator |
| DeviceId.ParseEncoded | sg.c:127-134 | Walking an encoded list gives it back, except for a last descriptor with an empty designator |
| DeviceId.ParseIgnoresExtra | sg.c:124-134 | What the walk sees does not depend on any byte after the end of the list |
| DeviceId.Prefer | sg.c:135-147 | The code's tests on the raw bytes are the preference on the two descriptors, which DeviceId.ChoiceComesFirst states in numbers |
| DeviceId.FindBest | sg.c:128-148 | The loop, whose remaining length never goes below zero and shrinks by at least 4, computes the walk; it is given the page only up to the end of the list, so every byte read, also by the comparison, lies before that end |
| DeviceId.WalkOfPage | sg.c:124-148 | The walk over the page cut at the end of its list finds the choice of the page, whatever follows that end |
| DeviceId.WalkChooses | sg.c:128-148 | The offset kept by the walk is that of the choice among the parsed descriptors |
| DeviceId.ChoiceFits | sg.c:149-154 | The chosen descriptor never exceeds the buffer, so the branch for that case is dead |
| DeviceId.BestOffset | sg.c:119-148 | After the checks of the page header, the offset is that of the choice, or -1 |
| DeviceId.KeepBest | sg.c:119-158 | The overlapping move and the clearing leave the chosen descriptor's bytes and zeros, or the response unchanged |
| DeviceId.GetDevId | sg.c:99-159 | The same for a buffer of any size and any reply |
| DeviceId.DevIdInBytes | sg.c:94-158 | What is left of any cut of any page, in bytes: the code set, type and length bytes and the designator of the descriptor that comes first in that order, then zeros; or the response when no descriptor has a type up to 3 |
| DeviceId.OtherResponseStays | sg.c:119-122 | A response of fewer than four bytes or with another page code is left as it is |
| DeviceId.DevIdIs | sg.c:94-98 | The computed contents are the only ones that meet the description by choice, bytes and zeros |
| DeviceId.KeptUnlessLost | sg.c:128 | Leaving out the last descriptor makes no difference unless it is the best candidate of all and its designator is empty |
| DeviceId.IgnoresOrderIff | sg.c:128-148 | For every list and every reordering of it, the two have the same outcome exactly when both or neither end in the best candidate with an empty designator |
| DeviceId.DevIdIgnoresOrderIff | sg.c:128-158 | The same on the buffer for pages returned whole: type, length, designator and padding agree exactly under that condition, and when nothing is kept of either order both keep the response |
| DeviceId.CutDescriptors | sg.c:119-134 | However many bytes of a page are returned, the walk sees the leading descriptors that lie wholly in them with five bytes left for each |
| DeviceId.InquiryGets | sg.c:40-86 | An inquiry that brings a page fills the buffer with such a cut of it |
| DeviceId.BestKeptIff | sg.c:128-148 | The best of the whole list is chosen exactly when it, or one of the same type and designator, is visible |
| DeviceId.DevIdKeepsBestIff | sg.c:119-158 | The same on the buffer for any cut of a page; when nothing is kept the response stays |
| DeviceId.CutOrderMattersIff | sg.c:119-158 | For cuts of two orders of the same descriptors, the buffers agree exactly when the best of what each shows agrees: always when both show the best of the list, never when only one does |
| DeviceId.LongPageKeepsTheFirst | sg.c:128-134 | Of two descriptors that fit in the bytes returned one by one but not together the first on the page is kept, so the order matters although no designator is empty |
| DeviceId.LongPageExists | sg.c:40-46 | Two such descriptors for the 255 bytes of an inquiry |
| DeviceId.OrderMattersOnPages | sg.c:128 | For an NAA descriptor with an empty designator and any designator of a lower type, one order on the page keeps the first and the other order the second |
| DeviceId.OrderMattersInBytes | sg.c:128 | Two such pages of 13 bytes and what is left of each |
| SaTables.SaTable.Lookup | utils.h:102-109 | The entry, or nothing past the valid part |
| SaTables.SaTable.LookupN | utils.h:116-127 | Entry n of the live entries in index order, with a counter that wraps at 32 bits |
| SaTables.SaTable.Grow | utils.c:245-263 | The new slots are empty and the size is the index plus 16 when memory is needed; it fails exactly when memory is needed and there is none, and then changes nothing |
| SaTables.SaTable.Insert | utils.h:141-148 | The entry is put at the index and no other slot changes; it fails exactly when memory is needed and there is none, and then changes nothing |
| SaTables.SaTable.Append | utils.h:158-162 | The entry is added at the end |
| SaTables.SaTable.Destroy | utils.c:269-278 | The table is as unused |
| SaTables.SaTable.DestroyAll | utils.c:284-298 | Each live entry is freed once, in index order, and the table is as unused |
| SaTables.SaTable.Search | utils.c:332-349 | The first result of the match function over the live entries |
| SaTables.ListingIsExact | utils.h:111-127 | Asking for 0, 1, 2, ... lists every live entry exactly once in index order |
| SaTables.LiveAfterPut | utils.h:141-148 | An insert, filling a gap or extending the table, adds one entry to the listing at its rank or replaces it there |
| SaTables.SearchIsFirstLive | utils.c:332-349 | Searching the table is searching the listing |
| SaTables.SaTable.Perform | utils.h:141-162 | Any operation on the table is the specified one, succeeds exactly when it needs no memory or gets it, and calls realloc exactly when it needs memory |
| SaTables.SaTable.PerformAll | utils.h:57-61 | Any run of operations on the table, with any memory for each, is the run on a finite map, keeps the table valid (the size within 15 of the limit, empty slots after it) and calls realloc as often as specified |
| SaTables.StepRefinesMap | utils.h:141-162 | One specified operation is the operation on the map |
| SaTables.RunRefinesMap | utils.h:57-61 | So is every specified run |
| SaTables.AppendsReallocate | utils.c:231-260 | k specified appends to an unused table need memory exactly ceil(k/16) times |
| SaTables.AppendsSucceedIff | utils.c:231-260 | Appends to an unused table all succeed exactly when there is memory for every sixteenth, from the first on |
| SaTables.AppendAll | utils.c:231-260 | k appends to a new table succeed exactly then, call realloc exactly ceil(k/16) times and leave exactly the entries appended |
| Rports.RportNameParses | rport.c:51 | A printed name scans back to its three numbers, and with readable files the entry gives the record with these and with each file's value in its field |
| Rports.RportNameText | adapt_impl.h:28 | The text of that name: rport-, host, a colon, channel, a dash and the rport number |
| Rports.DirectoryReads | rport.c:34-109 | A directory printed from any records is read back as these records, every field in its place |
| Rports.ScansReadable | rport.c:105-109 | For any outcome of its allocations, the scan is the readable part of the directory when all succeed, and finds nothing when there is nothing to read |
| Rports.DiscoveredIsSortedFilter | rport.c:185-202 | The discovered list is strictly increasing in rport number and holds exactly the records of the key that no later record of the same name replaces |
| Rports.SortedListUnique | rport.c:185-202 | These two properties fix the list |
| Rports.DiscoveredOfDistinctNames | rport.c:185-202 | With distinct names it is the plain filter on host and channel |
| Rports.FirstAcceptedIs | adapt.c:144-210 | A search answers the first entry of the list that matches, and nothing only if none does |
| Rports.AnswerIsLeast | adapt.c:113-210 | A search answers the record of least rport number that is not replaced and that the query accepts, and nothing when there is none |
| Rports.FromScratchByWwn | adapt.c:172-192 | Asked by port name: the record of that key and port name of least rport number, and none exactly when none has it |
| Rports.FromScratchByTarget | adapt.c:144-170 | The same by target number |
| Rports.FromScratchByFcId | adapt.c:194-210 | The same by Fibre Channel identifier |
| Rports.FromScratchByIndex | adapt.c:113-125 | The same by rport number |
| Rports.FromScratchByNumber | adapt.c:130-142 | Asked for number n: entry n of the unique list of all records of the key that are not replaced, in increasing rport number |
| Rports.AnswerByIndex | adapt.c:113-125 | A query by rport number answers the last record of that name |
| Books.WinnersAnswer | adapt.c:113-210 | In a table that holds the right port at each slot, lookup, listing by number and search give the answers computed from the scanned list |
| Books.TableAfterTake | rport.c:188-202 | Claiming one more remote port, or failing to insert it, leaves the claimer's table as expected at every slot |
| Books.OthersAfterTake | rport.c:188-202 | and changes what is expected of no other table |
| Books.SoundAfterTake | rport.c:188-202 | The account stays sound when a remote port is claimed, whether or not its insert succeeds |
| Books.SoundAfterPass | rport.c:188-190 | and when one of another key is passed over |
| Registry.Registry.constructor | rport.c:26 | Nothing is scanned or claimed at first |
| Registry.Registry.AddLocal | lport.c:239-242 | A new local port keeps the invariant |
| Registry.ReadFiles | rport.c:78-87 | The reads succeed exactly when every file reads and the class list parses |
| Registry.Registry.GetRport | rport.c:33-100 | An entry that does not read adds nothing; otherwise a new remote port with the read values joins the end of the table unless an allocation for it fails, and only then is the account not clean |
| Registry.Registry.FindRports | rport.c:105-109 | The scanned list is exactly that of the directory for the outcomes of the allocations, and the account is clean exactly when they all succeeded |
| Registry.Registry.ScanOnce | rport.c:182-183 | Only an empty table is filled |
| Registry.Registry.Enter | rport.c:200-201 | The remote port is put at its slot of the one local table, and an insert fails only when the table needs memory |
| Registry.Registry.Take | rport.c:188-201 | Claiming one remote port keeps the invariant, whether or not its insert succeeds, and is clean exactly when it does |
| Registry.Registry.ClaimAll | rport.c:185-205 | The loop carries the claim to the end of the scanned list, and changes nothing when no claim is active |
| Registry.Registry.ClaimFor | rport.c:185-205 | Everything of the key is claimed for the local port and nothing else, and nothing at all when it is claimed already |
| Registry.Registry.GetRportInfo | rport.c:175-206 | The scan is never repeated once it found something, claims are never revoked, the account is clean exactly when every allocation succeeded, and repeating the call changes neither the scanned list nor a pointer nor a table, once anything was scanned or with no failed allocation |
| Books.SettledCall | rport.c:182-205 | A call changes nothing when the port's key is claimed or there is nothing to read, which is so after any call that found something or read everything |
| Books.HeldIsClaimed | rport.c:188-201 | A remote port in a local table is at the slot of its rport number, has the port's host and channel and points to the port's adapter |
| Books.HeldByOne | rport.c:188-201 | No remote port is in two tables or two slots |
| Books.ClaimedIsHeld | rport.c:188-201 | A claimed remote port points to its claimer's adapter and is in its claimer's table exactly unless its insert failed or a later one of the same name replaced it |
| Books.ClaimedIffHeld | rport.c:188-201 | With distinct names and no failed insert, a remote port points to an adapter exactly when some local table holds it at its slot |
| Books.AnswerFromTable | adapt.c:113-210 | After a claim the three ways to read a local table give the answer from the scanned list, or nothing when another port holds the key |
| Registry.Registry.FindRport | adapt.c:113-210 | Each of the five queries claims and then reads the port's table; the account is clean after it exactly when it was before and every allocation of the scan and the claim succeeded, so always with ample memory; a port whose key is claimed already changes nothing |
| Registry.Registry.ServedIsAnswer | adapt.c:113-210 | What was so read is the answer from the scanned list in any state and with any earlier failures; with distinct local ports and no failed allocation it is the one computed from the directory alone |
| Books.AnswerIsFromScratchIff | rport.c:188-191 | The answer is the one from the directory exactly when no other local port with the same host and channel came first or there is nothing to find |
| Books.AnswerHas | adapt.c:113-210 | A remote port that is answered has the local port's host and channel, and the port name, target number, identifier or rport number asked for |
| Sessions.Load | lport.c:188-568 | Hosts of distinct numbers give a library with those that loaded, which is all of them with ample memory, each with its one port, and no two local ports of the same host and channel |
| Sessions.Serve | adapt.c:113-210 | One request, three queries by handle and port number and two by the port they name: the registry's answer in any case, and with ample memory nothing but the answer computed from the directory |
| Sessions.RunQueries | adapt.c:113-210 | Every answer of any run of requests to a clean library with ample memory is the one computed from the directory and the loaded hosts, whatever was asked before; without ample memory as long as no allocation fails |
| Sessions.RunSession | adapt.c:113-210 | A whole session: with ample memory all hosts are loaded and every answer is the one computed from the directory and the hosts alone; in any case so for the loaded hosts as long as no allocation fails |
| AdapterNames.PrintedIsInjective | adapt.c:49-50 | The printed name before truncation tells name and index, also when names hold dashes and digits |
| AdapterNames.FindPrintedName | adapt.c:215-230 | Looking up the printed name of entry i finds i exactly when no earlier entry prints the same, and always when nothing is truncated |
| AdapterNames.HostNamesFit | lport.c:428-429 | The name of a loaded adapter is never truncated when it is printed with its index |
| AdapterNames.PrintedText | adapt.c:49-50 | The adapter of an interface prints as fcoe:, the interface, a dash and its index |
| AdapterNames.LongNamesCollide | adapt.c:49-50 | Names of 63 characters or more, which no loaded adapter has, print the same exactly when they begin alike, and then looking up the later one does not find it |
| Adapters.AdapterLib.Create | adapt.c:59-69 | The new adapter takes the next index; slot i always holds the adapter with index i; it fails only when the table is full and memory is not ample |
| Adapters.AdapterLib.OpenHandle | adapt.c:94-99 | A handle resolves exactly when it is 0x100 plus an index in use, through the wrap for smaller handles |
| Adapters.AdapterLib.GetName | adapt.c:40-54 | The printed name of an index in use, otherwise an illegal index |
| Adapters.AdapterLib.Open | adapt.c:215-230 | The handle of the first adapter that prints the name, or 0 |
| Adapters.AdapterLib.OpenPrintedName | adapt.c:40-54 | Opening the name any adapter of the table printed gives its handle |
| Adapters.AdapterLib.GetPort | adapt.c:101-111 | The port of a handle and port number |
| Adapters.AdapterLib.GetPortByWwn | adapt.c:238-263 | The number of matching ports, and the port when there is exactly one |
| Adapters.TotalHitsOf | adapt.c:279-299 | The total bounds the matches of any two adapters |
| Adapters.PortHitsMean | adapt.c:238-263 | The count of a table is 0 when no slot holds a port of the name, and 1 exactly when one slot does |
| Adapters.TotalHitsMean | adapt.c:279-299 | The total is 0 exactly when no adapter has the node name and no port the port name, and 1 exactly when one adapter alone has a match and that is its node name or a single port |
| Adapters.AdapterLib.CountByWwn | adapt.c:268-311 | The loop adds up the matches of all adapters, a node name before the ports, and keeps the adapter of a match |
| Adapters.AdapterLib.OpenByWwn | adapt.c:268-311 | In the names themselves: illegal exactly when no adapter has this node name and no port this port name; OK exactly when one adapter alone has it as its node name or as the name of a single port, and then the handle is that adapter's; otherwise ambiguous |
| Adapters.AdapterLib.GetRport | adapt.c:113-170 | The queries by handle answer nothing without a port, otherwise the registry's answer for it; every invariant is kept, and so is a clean account with ample memory; with distinct local ports and a clean account the answer is the one computed from the directory for the port's host and channel |
| Adapters.AdapterLib.AskPort | adapt.c:172-210 | The same for a port |
| Adapters.AdapterLib.MakeHost | lport.c:213-245 | A new adapter with its one local port, which has the host's number and channel 0, exactly when there is memory |
| Adapters.AdapterLib.AddHost | lport.c:416-566 | Loading a host, called after its network interface, keeps every invariant, succeeds with ample memory, and a failure adds nothing |
| Adapters.AdapterLib.DestroyAll | adapt.c:78-92 | Every adapter is freed once, in order, and the table is emptied; the registry is not touched |
| TargetMapping.PrintedNameParses | bind.c:212 | A printed name parses to its four numbers |
| TargetMapping.PrintedNameText | bind.c:212 | The text of that name: four numbers in order with colons between them |
| TargetMapping.HostFilter | bind.c:215-220 | All ones for port, target and unit match every name of the host |
| TargetMapping.PortFilter | bind.c:215-220 | All ones for target and unit match every name of the host and port |
| TargetMapping.HostMatches | bind.c:299-303 | On a directory of units the matches for a host are the names of all units of that host, in order |
| TargetMapping.PortMatches | bind.c:335-338 | and for a host and port the names of its units |
| TargetMapping.DevicePaths | bind.c:258-264 | The path of a device is whole for names of up to 19 characters, and names of up to 26 have different paths |
| TargetMapping.MatchingIsFilter | bind.c:212-220 | The matches are the directory's names that pass the filter, as often as they occur |
| TargetMapping.ExactFilter | bind.c:215-220 | Without a wildcard only names with exactly the four numbers match |
| TargetMapping.DescribedStep | bind.c:225-283 | One more match is described in the next entry with the remote port found for it |
| TargetMapping.BindingContext.Visit | bind.c:192-284 | One directory entry, against the filter of what was read so far |
| TargetMapping.BindingContext.Remote | bind.c:246-249 | The remote port of an entry is the given one, or the registry's answer for the name's port and target numbers, which with ample memory is the one computed from the directory |
| TargetMapping.BindingContext.Match | bind.c:225-282 | A match is described, with its remote port, when there is room and counted in any case |
| TargetMapping.BindingContext.Add | bind.c:225-282 | The entry has the identifiers of the remote port or zeros, the device names, the numbers and, in version 2, the device's identifier |
| TargetMapping.BindingContext.Identify | bind.c:278-280 | The identifier is what choosing the best designator leaves in a buffer of 256 bytes |
| TargetMapping.BindingContext.ReadDir | utils.c:203-223 | The whole directory; the two dot entries are skipped |
| TargetMapping.GetTargetMappingV1 | bind.c:289-314 | The total, the first matches in read order, zeros up to the limit, nothing beyond it, and MORE_DATA exactly when they do not all fit; with distinct local ports and a clean account, which stays so with ample memory, the remote ports are those computed from the directory; or an invalid handle and nothing changed |
| TargetMapping.GetTargetMappingV2 | bind.c:319-349 | The same for the one port with the given name |
| TargetMapping.MappingOfHost | bind.c:225-314 | Version 1 on a directory of units, without failed allocations: the number of units of the host, the first of them field by field with the identifiers of the remote port of their port and target or zeros, and zeros up to the limit |
| TargetMapping.MappingOfPort | bind.c:225-349 | Version 2: the same for the units of the port, each with its device identifier |
| TargetMapping.SlotIsFromScratch | bind.c:246-255 | Then slot k carries the identifiers of the remote port computed for the k-th match, and zeros when there is no such local port |
| TargetMapping.RetrySucceeds | bind.c:310-312 | Calling again with room for the total succeeds and extends the first result, but for remote ports that an allocation failed for |
| TargetMapping.GetSgName | bind.c:354-386 | Found exactly when the registry's answer for the local port and the name is a remote port with a target number and exactly one name matches; that remote port has the port name asked for and the local port's host and channel; the buffer then holds the sanitised generic name of that match, and is untouched otherwise |
| TargetMapping.NameCopied | bind.c:380-384 | A printable name is copied whole and terminated when there is room |
| TargetMapping.UnitMatchIsExact | bind.c:372-377 | When the low word of the unit number is not all ones the match has exactly the port's host, channel, target and that word |
| TargetMapping.AllOnesMatchesEveryUnit | bind.c:377 | All ones there match every unit of the port's host, channel and target, and no other |
| PciWalk.SerialShowsSixBytes | pci.c:143-148 | Two serial numbers print the same exactly when they agree on the six bytes printed |
| PciWalk.DwordBytes | pci.c:143-148 | The four bytes of a word are those read, low byte first |
| PciWalk.StartInBytes | pci.c:39-66 | The walk starts when bit 4 of the status is set, at the offset in byte 0x34 if it is not 0, and is otherwise over |
| PciWalk.StdStepInBytes | pci.c:69-113 | In bytes: a standard capability of kind 0x10 leads to 0x100, another one to the offset in its second byte; without one, or with a byte missing, the walk ends with Unknown |
| PciWalk.ExtStepInBytes | pci.c:115-150 | An extended capability of kind 3 ends the walk, another one leads to the offset in the upper 12 bits of its header, if there is one |
| PciWalk.HaltsIffAcyclic | pci.c:69-152 | The walk ends exactly when no place of either chain is met twice, and then within 4352 steps |
| PciWalk.HaltsIffChainsOpen | pci.c:69-152 | On configuration space itself: the walk ends exactly when no standard chain, and no extended chain that a standard one leads to, comes back to an offset |
| PciWalk.CyclicChainNeverHalts | pci.c:69-105 | A standard chain that closes on itself keeps the walk running for ever |
| PciWalk.SelfLinkedCapability | pci.c:69-105 | Such spaces exist: a capability that names itself as the next one, with every read succeeding |
| PciWalk.RunningIsShort | pci.c:69-150 | Without a repetition the walk has fewer steps behind it than there are offsets |
| PciWalk.WalkExtended | pci.c:115-150 | Entered where the machine enters the extended chain, the inner loop ends with the machine's result |
| PciWalk.GetDeviceSerialNumber | pci.c:25-153 | The two loops end on every space whose chains do not close, with the result of the machine |
| PciWalk.SerialFromFirstDsn | pci.c:129-149 | The serial number comes from the first serial number capability in chain order |
| PciWalk.ResultIsFirstDsn | pci.c:66-152 | and it is "Unknown" if there is none or a read on the way fails |
| PciWalk.SerialInBytes | pci.c:138-148 | With the eight bytes of that capability readable at o + 4 to o + 11, the serial number is that of the bytes at o + 11, 10, 9, 6, 5 and 4 |
| PciWalk.SerialOfSpace | pci.c:25-153 | A space in bytes with four capabilities and its serial number |
| SpeedList.FindPrinted | lport.c:103-110 | In a table without prefixes the cursor stops at the printed name, or at the end if it is past it |
| SpeedList.ReadSpeed | lport.c:91-126 | The loops end on every text and compute the parse, or nothing for a text that mentions Unknown |
| SpeedList.PrintedListParses | lport.c:102-120 | A printed list gives the speeds of exactly its longest prefix in table order, which is all of it when it is in order |
| SpeedList.RunIsLongest | lport.c:103 | That prefix is in table order and cannot be longer |
| SpeedList.ReadsAllIff | lport.c:91-126 | The whole list is read exactly when that prefix has the values of all names listed |
| SpeedList.ReadsAllIffInPrefix | lport.c:91-126 | With values that share no bits, exactly when every name listed is in the prefix |
| SpeedList.PortSpeedsArePrefixFree | lport.c:71-84 | No name of the table is, ignoring case, a prefix of another |
| SpeedList.PortSpeedsRoundTrip | lport.c:71-126 | Printing speeds other than Unknown and reading them back |
| SpeedList.OutOfOrderPair | lport.c:71-110 | Of two speeds against table order only the first is read, as of "8 Gbit, 10 Gbit" |
| SpeedList.SpeedTexts | lport.c:71-84 | The eleven texts are read as the eleven values in the order of the table |
| SpeedList.ParseIgnoresCase | lport.c:105 | Texts that differ only in the case of their letters are read alike |
| ClassList.AddUp | rport.c:149-167 | The loop ends on every text, also when nothing is converted, and computes the parse |
| ClassList.ReadClasses | rport.c:137-170 | The whole reader, with the unspecified and unreadable cases |
| ClassList.PrintedListParses | rport.c:131-136 | Every list of classes below 31, with any mix of the optional word and blanks, is read back exactly |
| ClassList.TwoClasses | rport.c:131-136 | The kernel's text for any two classes is read as these two |
| ClassList.ParseOnlyAdds | rport.c:150-155 | A class that was read is never taken back |
| ClassList.NotANumberSetsClassZero | rport.c:152-166 | Text that is not a number adds class 0, along with the error unless a comma follows |
| PciPath.BackUp | lport.c:306-326 | The loop ends on every link, succeeds exactly when some component after a slash is a PCI address, and then has the fields of the rightmost one |
| PciPath.RightmostUnique | lport.c:313-323 | There is only one such component |
| PciPath.PrintedAddress | lport.c:317-319 | A component printed as domain:bus:dev.func is recognised with these four numbers |
| PciPath.AddressText | lport.c:317-319 | The text of such a component |
| PciPath.UsualAddress | lport.c:317-319 | An address in its usual form of two hexadecimal digits for bus and device, as 0000:0a:00.0, has the numbers of its digits |
| PciPath.NotAnAddress | lport.c:317-319 | A component that does not begin like a number is no address |
| SafeCopy.StrncpySafe | utils.c:141-160 | The destination holds the cleaned string, NULs to the place of the first terminator, and its old contents after that |
| SafeCopy.SanitiseByCode | utils.c:148 | Codes 32 to 126 are kept, 9 to 13 become a blank and all others a dot |
| SafeCopy.CleanIs | utils.c:141-160 | The string is the sanitised front of the source, as much as fits, is asked for and comes before its first NUL, less the blanks at its end |
| SafeCopy.CleanIsPrintable | utils.c:137-140 | The string fits with its terminator, is printable and does not end in a blank |
| SafeCopy.CleanIsIdempotent | utils.c:141-160 | Cleaning again with enough room changes nothing |
| SafeCopy.CleanKeepsPrintable | utils.c:148 | Printable text loses only its trailing blanks |

## Left out

- The operating system: opening files and directories, reading links, the SG_IO ioctl and libpciaccess. A directory is a sequence of names, a file is its line of text, configuration space is a partial map of bytes and an inquiry is an arbitrary reply with a residual between 0 and the request.
- DeviceId.FindBest: takes the list as a sequence, since the walk only reads it; the buffer is an array where it is written.
- TargetMapping.GetTargetMappingV2: the names of the block and generic device of a path, which are read from further directories, are a map from the path, here and in version 1.
- Adapters.AdapterLib.AddHost: the interface name is any string of up to 19 characters, as its buffer holds; on the branch for a PCI symlink the source prints that buffer without having filled it.
- Adapters.AdapterLib.MakeHost: one outcome stands for the memory of the adapter, of its port and of the slot in its table, of which the source gives up the host when any is missing; that a missing adapter also ends the reading of the host directory is not modelled.
- Sessions.RunSession: without ample memory it says what is answered while no allocation fails; after a failure the answers are those of Books.IsAnswer for what was scanned and claimed.
- PciWalk.GetDeviceSerialNumber: requires chains that do not close on themselves, since the loops of the source do not end on others, as PciWalk.HaltsIffAcyclic shows; a failed read of one of the two words of the serial number leaves it zero, while libpciaccess may store part of it.
- SaTables.SaTable.Insert: indices from 2^31 - 16 on are excluded; there the 32-bit sums and the int result of the source leave their range. Rports.SmallListing carries the same bound to rport numbers.
- ClassList.ReadClasses: a class number of 32 or more shifts modulo 32, where the C standard leaves the shift undefined.
- SafeCopy.StrncpySafe: a destination of length 0, which the source would overrun, is excluded.
- Adapters.AdapterLib.OpenByWwn: counters are unbounded, where the source counts in an int.
- Reading a line with its trailing blanks trimmed, the long part of the host scan that copies attributes, port statistics, the table of entry points and the wrappers that fill command blocks: straight-line code.
- get_binding_support, set_binding_support, get_binding_capability and adapter_get_port_attr_by_wwn: not registered as entry points; the last does not claim remote ports first, so its answer depends on what was asked before.
- Sorting a table (the C library's qsort), locking and the log.
