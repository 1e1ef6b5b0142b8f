# Verified model of ipset

ipset keeps sets of addresses, ports and networks in the kernel and drives them from userspace over
netlink. This project models the parts where its correctness is decided and proves what they promise.

| modules | part of ipset |
|---|---|
| Pfxlen | IPv4 prefix arithmetic (section 3.1 of RFC 4632) and the search for the block that starts a range |
| NetIndex | the sorted index of prefix lengths (`nets[]`) |
| HashModel, HashTable, HashSpec, HashSets, HashResize, HashList, HashRun, Capacity | the generic hash set: buckets with holes, add, delete, tests, collection, flush, doubling resize, resumable listing, capacity |
| RangeAdd, HashIpRange | range add and delete with cuts, resume position and retries |
| Retirement | reference counting of a replaced hash table, over all interleavings |
| RegistryModel, Registry, XtSet, DumpModel, Dump, RegistryRun, RegistryExec | the slot table of sets, names, the two reference counts, the iptables holder, the dump state machine |
| BitmapIp, Bitmap | address and bit numbers of bitmap:ip; bits, MACs, timeouts and the element counter of bitmap:ip,mac |
| StableSort, ListSort | the in-place merge sort of the userspace library |
| Session, BuildArgv | batching of restore lines into messages; the quoting tokenizer |

Code that updates memory is a class or a method with loops and is proved against a specification on
values; the theorems about that specification, and about all runs of it, are lemmas. The central ones:

- A hash set behaves like a mathematical set in every run of add, delete, test, collection, flush and
  resize (`HashRun.RunNew`), and a host test is the longest-prefix match (`HashSets.HashSet.TestCidrs`).
- A range request processes every element once and in order however often it is cut (`RangeAdd.CallAd`).
- `list_sort` turns a circular list into the circular list of its stable sort (`ListSort.SortList`).
- Whatever an outside holder or a dump holds in the registry stays valid in every run
  (`RegistryRun.RunInv`, `RegistryRun.StepStable`), and the objects in memory follow those runs
  (`RegistryExec.RunNew`).
- What a restore sends is what was issued (`Session.SessionState.Restore`), and parsing undoes quoting
  (`BuildArgv.ParseLine`).

Where the code does less than its comments or its obvious reading promise, the exact condition is proved:

- `ip_set_range_to_cidr` compares the end of a block as a sequence number and so does not always return
  the largest network: `Pfxlen.RangeToCidrLargestIff`.
- A user that leaves between the resizer's setting of `ref` and its own reference destroys the current
  table: `Retirement.RunSafeIff`.
- A dump of the whole table ends before the list phase when the last slot holds a plain set:
  `DumpModel.DumpAllCompleteIff`, `DumpModel.ListLeftOut`.
- A range add or delete of hash:ip,port,net succeeds only if the range ends before 255.255.255.255; up to
  it the address loop goes on from 0.0.0.0, outside the request: `RangeAdd.CallAd`, `RangeAdd.BeyondRequest`.
- bitmap:ip,mac revives an expired element with its old MAC unless the exist flag is given
  (`Bitmap.AddStoresMacIff`), and takes an element waiting for its MAC for expired
  (`Bitmap.WaitingTakenForExpired`).
- An unclosed quote goes unreported on a line that ends in white space: `BuildArgv.MissingQuoteIff`.

Assumptions: the hash is any function of the element without its nomatch flag; memory allocation may
fail at any point where the code handles it; one clock reading serves a whole call; an RCU grace period
ends only when every section that loaded the old pointer has left or taken its reference; the decrement
of a table's use count and the look at `ref` that follows are one step; the comparison function of
`list_sort` is a total preorder; messages are sent without failure from a buffer of one page or more.

## Model
| member | source | states |
|---|---|---|
| Pfxlen.MaskBits | kernel/include/linux/netfilter/ipset/pfxlen.h:25-29 | masking with the entry of a prefix length keeps exactly the leading bits and clears the others |
| Pfxlen.MaskMask | kernel/net/netfilter/ipset/ip_set_hash_ipportnet.c:95-99 | masking first with a longer and then with a shorter prefix equals masking once with the shorter one |
| Pfxlen.MaskCovers | kernel/net/netfilter/ipset/ip_set_hash_ipportnet.c:95-99 | an aligned base covers exactly the addresses that mask to it |
| Pfxlen.MaskAddr | kernel/include/linux/netfilter/ipset/pfxlen.h:39-43 | from/to masking gives the aligned first and the last address around any address, inside 32 bits |
| Pfxlen.BlockCidr | kernel/net/netfilter/ipset/pfxlen.c:170-187 | the first prefix length from a start that the search accepts; none shorter is accepted |
| Pfxlen.RangeToCidr | kernel/net/netfilter/ipset/pfxlen.c:170-187 | the loop returns that prefix length and the last address of an aligned block inside the range |
| Pfxlen.BlockFits | kernel/net/netfilter/ipset/pfxlen.c:170-187 | the block taken is always aligned at the start and never passes the end |
| Pfxlen.AcceptsIff | kernel/net/netfilter/ipset/pfxlen.c:176-184 | the wrap-around comparison accepts a length exactly when the block fits and ends less than 2^31 before the end |
| Pfxlen.RangeToCidrLargestIff | kernel/net/netfilter/ipset/pfxlen.c:169-187 | the documented "largest network" is returned if and only if it is a single address or ends less than 2^31 before the end |
| Pfxlen.RangeToCidrNotLargest | kernel/net/netfilter/ipset/pfxlen.c:169-187 | a concrete range where a single address is returned although a /3 fits |
| NetIndex.FullColumn | kernel/net/netfilter/ipset/ip_set_hash_gen.h:332-347 | pigeonhole: a column with all entries in use lists every prefix length, so insertion never runs past NLEN |
| NetIndex.ColumnUnique | kernel/net/netfilter/ipset/ip_set_hash_gen.h:325-371 | the prefix counts determine the sorted column |
| NetIndex.InsertSorted | kernel/net/netfilter/ipset/ip_set_hash_gen.h:325-350 | inserting a length at its place keeps the column strictly decreasing then zero |
| NetIndex.InsertMembers | kernel/net/netfilter/ipset/ip_set_hash_gen.h:325-350 | after the insertion exactly the old lengths and the new one are listed |
| NetIndex.RemoveSorted | kernel/net/netfilter/ipset/ip_set_hash_gen.h:352-371 | closing the gap keeps the column strictly decreasing then zero |
| NetIndex.RemoveMembers | kernel/net/netfilter/ipset/ip_set_hash_gen.h:352-371 | after the removal exactly the other lengths are listed |
| NetIndex.NetPrefixes.FindPlace | kernel/net/netfilter/ipset/ip_set_hash_gen.h:332-341 | the search finds the entry of a length or the place that splits the column around it, with a free entry left |
| NetIndex.NetPrefixes.ShiftRight | kernel/net/netfilter/ipset/ip_set_hash_gen.h:342-345 | entries from the place on move up by one, the others stay |
| NetIndex.NetPrefixes.AddCidr | kernel/net/netfilter/ipset/ip_set_hash_gen.h:325-350 | the count of the length goes up by one, all other counts stay, and the column lists exactly the lengths counted |
| NetIndex.NetPrefixes.DelCidr | kernel/net/netfilter/ipset/ip_set_hash_gen.h:352-371 | the count of a listed length goes down by one, nothing else changes, and the length leaves the column at zero |
| NetIndex.NetPrefixes.ShiftLeft | kernel/net/netfilter/ipset/ip_set_hash_gen.h:364-366 | the gap is closed: sorted as before, without that length |
| NetIndex.NetPrefixes.Clear | kernel/net/netfilter/ipset/ip_set_hash_gen.h:422-424 | all counts and the column are zero |
| HashModel.RegionsPartition | kernel/net/netfilter/ipset/ip_set_hash_gen.h:61-73 | every bucket lies in the contiguous range of exactly one region |
| HashModel.RegionsAbut | kernel/net/netfilter/ipset/ip_set_hash_gen.h:61-73 | the ranges follow each other from the first bucket to the last |
| HashModel.BucketPut | kernel/net/netfilter/ipset/ip_set_hash_gen.h:964-993 | filling a free slot makes the bucket find the new element and otherwise what it found before, without duplicates |
| HashModel.BucketClear | kernel/net/netfilter/ipset/ip_set_hash_gen.h:1073-1077 | clearing a used bit removes exactly that element from what the bucket finds |
| HashModel.BucketOverwrite | kernel/net/netfilter/ipset/ip_set_hash_gen.h:974-993 | overwriting flags and extensions changes exactly the entry of that element |
| HashModel.BucketRelayout | kernel/net/netfilter/ipset/ip_set_hash_gen.h:949-966 | moving to a larger array or moving pos over free slots changes nothing that is found |
| HashModel.Stored | kernel/net/netfilter/ipset/ip_set_hash_gen.h:892-916 | the finite map a table stands for: an element is stored with the entry that its own bucket finds |
| HashModel.SlotCount | kernel/net/netfilter/ipset/ip_set_hash_gen.h:838-1142 | the number of used slots is the number of stored elements: no two used slots are equal |
| HashModel.StoredBound | kernel/net/netfilter/ipset/ip_set_hash_gen.h:105-120 | a table never holds more elements than buckets times slots of the largest bucket |
| HashModel.StoredSmall | kernel/net/netfilter/ipset/ip_set_hash_gen.h:105-120 | so a table that create or resize can allocate holds fewer than 2^31 elements: their 32-bit sum cannot wrap |
| HashModel.SumMod | kernel/net/netfilter/ipset/ip_set_hash_gen.h:868-869 | adding up in 32 bits is the sum reduced modulo 2^32 |
| HashModel.ConservedStep | kernel/net/netfilter/ipset/ip_set_hash_gen.h:926-968 | a step on one region counter keeps the sum of all counters, modulo 2^32, equal to the number of elements |
| HashModel.ConservedTotal | kernel/net/netfilter/ipset/ip_set_hash_gen.h:867-869 | added up in 32 bits the region counters are the number of elements modulo 2^32 |
| HashTable.Packed | kernel/net/netfilter/ipset/ip_set_hash_gen.h:530-551 | the copy loop of a compaction moves exactly the used entries, fits the smaller array and leaves no hole |
| HashTable.OpenedReceives | kernel/net/netfilter/ipset/ip_set_hash_gen.h:949-966 | a full bucket copied into an array two slots larger can take one more element at pos |
| HashTable.UsedIsStored | kernel/net/netfilter/ipset/ip_set_hash_gen.h:892-916 | the entry in a used slot is the stored entry of its element, in the bucket its flag-stripped hash names |
| HashTable.StoredIsUsed | kernel/net/netfilter/ipset/ip_set_hash_gen.h:892-916 | every stored element sits in a used slot of that bucket |
| HashTable.HTable.constructor | kernel/net/netfilter/ipset/ip_set_hash_gen.h:1562-1605 | a new table is empty and well formed |
| HashTable.HTable.Clear | kernel/net/netfilter/ipset/ip_set_hash_gen.h:1073-1077 | the element of the slot leaves the map, its region counter drops by one in 32 bits, the rest of the table stays |
| HashTable.HTable.Insert | kernel/net/netfilter/ipset/ip_set_hash_gen.h:964-993 | the map gains exactly the element, its region counter rises by one in 32 bits |
| HashTable.HTable.Overwrite | kernel/net/netfilter/ipset/ip_set_hash_gen.h:974-993 | the element's entry is replaced, nothing else changes |
| HashTable.HTable.LowerPos | kernel/net/netfilter/ipset/ip_set_hash_gen.h:1075-1076 | same elements with pos one lower |
| HashTable.HTable.Free | kernel/net/netfilter/ipset/ip_set_hash_gen.h:1102-1105 | same elements without the empty bucket |
| HashTable.HTable.Compact | kernel/net/netfilter/ipset/ip_set_hash_gen.h:1106-1126 | same elements in a smaller array |
| HashSpec.LpmUnique | kernel/net/netfilter/ipset/ip_set_hash_gen.h:1158-1210 | the longest live prefix around an address determines the verdict uniquely |
| HashSpec.LpmIff | kernel/net/netfilter/ipset/ip_set_hash_gen.h:1158-1210 | so a test answers match exactly when the longest live prefix is not flagged nomatch, the nomatch answer exactly when it is, and miss exactly when there is none |
| HashSpec.MaskedTwice | kernel/net/netfilter/ipset/ip_set_hash_gen.h:1176-1186 | masking the tested element in place, longest prefix first, equals masking the original address at each step |
| HashSpec.CandidateIsMasked | kernel/net/netfilter/ipset/ip_set_hash_gen.h:1185-1196 | a stored prefix contains the address and agrees on the other fields exactly when it equals the address masked to its length |
| HashSpec.LpmFromIndex | kernel/net/netfilter/ipset/ip_set_hash_gen.h:1176-1209 | the first hit along the prefix index is the longest match, and no hit means no match |
| HashSpec.CountsShrink | kernel/net/netfilter/ipset/ip_set_hash_gen.h:690-692 | dropping expired elements without touching the counts leaves them upper bounds, exact ones when timeouts are off |
| HashSpec.CountPositive | kernel/net/netfilter/ipset/ip_set_hash_gen.h:325-350 | the length of every stored element has a positive count |
| HashSpec.PurgeLive | kernel/net/netfilter/ipset/ip_set_hash_gen.h:483-552 | removing the expired elements of any buckets changes no live element |
| HashSpec.PurgeRound | kernel/net/netfilter/ipset/ip_set_hash_gen.h:483-591 | a round of the collector over all regions leaves exactly the live elements |
| HashSpec.AddLasts | kernel/net/netfilter/ipset/ip_set_hash_gen.h:985-986 | an added element has the flag and data asked for and is live for exactly its timeout, for ever where that is 0 or the set has no timeouts |
| HashSets.HashSet.ClampBucketsize | kernel/net/netfilter/ipset/ip_set_hash_gen.h:1594-1603 | a requested bucket size becomes even and lies in 2..12, rounded up by at most one |
| HashSets.HashSet.constructor | kernel/net/netfilter/ipset/ip_set_hash_gen.h:1461-1620 | a new set has no elements, no bucket, zero counters and satisfies the invariant |
| HashSets.CreateSet | kernel/net/netfilter/ipset/ip_set_hash_gen.h:1461-1620 | creation fails exactly for a hash size above 2^27 buckets or without memory, else gives an empty set with the requested or default limits |
| HashSets.HashSet.TotalElements | kernel/net/netfilter/ipset/ip_set_hash_gen.h:867-869 | the sum over the regions is the number of elements, expired ones included; it never wraps |
| HashSets.HashSet.Admission | kernel/net/netfilter/ipset/ip_set_hash_gen.h:857-872 | only expired elements are collected; the answer is full exactly when afterwards neither the region's share (by its old counter) nor the number of elements leaves room, with and without timeouts |
| HashSets.HashSet.DataNext | kernel/net/netfilter/ipset/ip_set_hash_ipportnet.c:121-128 | address, port and second address of an element are saved as the resume position |
| HashSets.HashSet.Append | kernel/net/netfilter/ipset/ip_set_hash_gen.h:933-994 | behind the last slot: the element is stored, or nothing changes and the resume position is saved because the bucket is full |
| HashSets.HashSet.StoreInHole | kernel/net/netfilter/ipset/ip_set_hash_gen.h:917-932 | a hole or an expired slot is reused for the element; only that expired element goes |
| HashSets.HashSet.Locate | kernel/net/netfilter/ipset/ip_set_hash_gen.h:892-916 | the place an add uses: the equal element, else the first hole or expired slot, else the end |
| HashSets.HashSet.Add | kernel/net/netfilter/ipset/ip_set_hash_gen.h:838-1029 | the live set gains the element with its flag and data, live for exactly its timeout; a live one is kept or written again as the exist flag says; a new one is refused only when no slot of its bucket can be reused, and when none can from the start, -HASH_FULL comes exactly when neither the region's share nor, after collecting, the set has room, -EAGAIN exactly when otherwise the bucket is full at its largest size, and -ENOMEM only without memory |
| HashSets.HashSet.Settle | kernel/net/netfilter/ipset/ip_set_hash_gen.h:892-1029 | what is done at the place found: overwritten or refused as existing, stored over a hole or an expired element, or stored at the end or refused |
| HashSets.HashSet.IsFull | kernel/net/netfilter/ipset/ip_set_hash_gen.h:857-872 | the capacity check: full exactly when neither the share of the element's region nor, after collecting it, the whole set has room; buckets where nothing expired stay as they are |
| HashSets.HashSet.AddAtEnd | kernel/net/netfilter/ipset/ip_set_hash_gen.h:933-1001 | where nothing can be reused: refused as full, or stored behind the last slot, or refused for a full bucket or missing memory without change |
| HashSets.FindPlace | kernel/net/netfilter/ipset/ip_set_hash_gen.h:892-916 | the search loop: equal element, or first reusable slot and no equal element in the bucket |
| HashSets.HashSet.Erase | kernel/net/netfilter/ipset/ip_set_hash_gen.h:1073-1083 | used bit, region counter and prefix count go down together for exactly this element |
| HashSets.HashSet.Tidy | kernel/net/netfilter/ipset/ip_set_hash_gen.h:1075-1126 | after a deletion pos is lowered, the bucket freed or compacted, with the elements unchanged; with memory at most one hole stays |
| HashSets.HashSet.Del | kernel/net/netfilter/ipset/ip_set_hash_gen.h:1033-1142 | succeeds exactly for a live element and removes exactly that; otherwise the elements are unchanged; with memory its bucket keeps at most one hole |
| HashSets.FindSlot | kernel/net/netfilter/ipset/ip_set_hash_gen.h:1061-1068 | the slot of an element if it is stored, and the number of holes below it |
| HashSets.CountHoles | kernel/net/netfilter/ipset/ip_set_hash_gen.h:1098-1101 | the number of free slots below pos |
| HashSets.HashSet.Probe | kernel/net/netfilter/ipset/ip_set_hash_gen.h:1241-1256 | an exact test answers match exactly for a live element not flagged nomatch, and miss exactly when it is not live |
| HashSets.HashSet.TestCidrs | kernel/net/netfilter/ipset/ip_set_hash_gen.h:1158-1210 | a host test answers match exactly when the longest live prefix around it is not flagged nomatch, and the nomatch answer exactly when it is |
| HashSets.HashSet.Test | kernel/net/netfilter/ipset/ip_set_hash_gen.h:1214-1260 | host addresses are tested by longest prefix, networks exactly; match exactly when the deciding entry is not flagged nomatch |
| HashSets.MatchIn | kernel/net/netfilter/ipset/ip_set_hash_gen.h:1191-1204 | the bucket loop of a test finds the live equal entry and answers by its nomatch flag |
| HashSets.HashSet.Sweep | kernel/net/netfilter/ipset/ip_set_hash_gen.h:501-521 | exactly the expired elements of one bucket go, and its holes are counted |
| HashSets.HashSet.GcBucket | kernel/net/netfilter/ipset/ip_set_hash_gen.h:498-551 | sweeping, then freeing or compacting a bucket removes exactly its expired elements and, with memory, leaves at most one hole |
| HashSets.HashSet.Reclaim | kernel/net/netfilter/ipset/ip_set_hash_gen.h:522-551 | a bucket whose slots are all unused is freed, one with two holes compacted when there is memory, any other left alone |
| HashSets.HashSet.GcDo | kernel/net/netfilter/ipset/ip_set_hash_gen.h:483-554 | exactly the expired elements of the region's bucket range go; with memory its buckets keep at most one hole each |
| HashSets.HashSet.Gc | kernel/net/netfilter/ipset/ip_set_hash_gen.h:556-591 | one region per run, the next one each time and the first twice after the last; exactly its expired elements go |
| HashSets.HashSet.FlushRegion | kernel/net/netfilter/ipset/ip_set_hash_gen.h:405-421 | all buckets of the region are gone and its counter is zero |
| HashSets.HashSet.Flush | kernel/net/netfilter/ipset/ip_set_hash_gen.h:396-425 | the set is empty, with counters and prefix index cleared |
| HashRun.AgreeLater | kernel/net/netfilter/ipset/ip_set_hash_gen.h:838-1260 | time only expires elements: agreement with the mathematical set lasts |
| HashRun.AddedLasts | kernel/net/netfilter/ipset/ip_set_hash_gen.h:838-1029 | an add that succeeds leaves the element with its flag and data, live for exactly its timeout, and all others as they were |
| HashRun.Run | kernel/net/netfilter/ipset/ip_set_hash_gen.h:620-1260 | every sequence of add, del, test, gc, flush and resize gives the outcomes of a mathematical set, state by state; every refusal of an add is due in the table it leaves, every resize gives the smallest larger table that can take the live elements, or shows that there is none |
| HashRun.RunNew | kernel/net/netfilter/ipset/ip_set_hash_gen.h:620-1620 | the same from a set that create returns, for every size it accepts; the set after the run satisfies the invariant and agrees with the mathematical one |
| HashTable.HtableSizeBound | kernel/net/netfilter/ipset/ip_set_hash_gen.h:105-120 | a table can be allocated exactly up to 2^27 buckets, which bounds the doubling retries |
| HashTable.Hbits | kernel/net/netfilter/ipset/ip_set_hash_gen.h:1545-1562 | the bit count of a new table: the least that holds the requested hashsize, at least that of 64 buckets |
| HashResize.LoadOfBucket | kernel/net/netfilter/ipset/ip_set_hash_gen.h:702-749 | a bucket never holds more than the largest bucket size of the elements that hash to it, and without holes one a slot |
| HashResize.Overflows | kernel/net/netfilter/ipset/ip_set_hash_gen.h:728-738 | an element that finds its new bucket full shows that a table of that size cannot take the live elements |
| HashResize.RehashOne | kernel/net/netfilter/ipset/ip_set_hash_gen.h:702-749 | one element goes into the bucket its hash names in the new table, or the copy is given up because that bucket holds as many elements as it may, or for want of memory |
| HashResize.Rehash | kernel/net/netfilter/ipset/ip_set_hash_gen.h:679-753 | after the loops the new table holds exactly the unexpired elements of the old one; given up exactly when some bucket would get more than it may hold, or for want of memory |
| HashResize.Attempt | kernel/net/netfilter/ipset/ip_set_hash_gen.h:656-753 | one round of the retry loop: a table of that size filled with the live elements, or proof that they do not fit |
| HashResize.Resize | kernel/net/netfilter/ipset/ip_set_hash_gen.h:620-803 | with memory it succeeds exactly when some larger table that can be allocated spreads the live elements so that no bucket overflows, and takes the smallest such; it holds exactly the live elements, flags and extensions; otherwise the old table stays current and unchanged |
| HashList.ListCall | kernel/net/netfilter/ipset/ip_set_hash_gen.h:1352-1425 | one call lists whole buckets from the cursor on, as many as the message has room for, and moves the cursor strictly forward or ends the listing; it fails, with an empty message, exactly when its first bucket does not fit |
| HashList.ListingExact | kernel/net/netfilter/ipset/ip_set_hash_gen.h:1373-1405 | listing all buckets names every live element exactly once |
| HashList.RangeSplit | kernel/net/netfilter/ipset/ip_set_hash_gen.h:1373-1421 | listing a range of buckets in two parts is listing it at once |
| HashList.ListBucket | kernel/net/netfilter/ipset/ip_set_hash_gen.h:1382-1404 | the slot loop emits the live entries of the bucket in order, or stops exactly when they do not all fit |
| HashList.ListAll | kernel/net/netfilter/ipset/ip_set_hash_gen.h:1352-1425 | repeated calls emit every live element of the table exactly once; the listing is completed exactly when bucket 0 fits the first message and every other bucket an empty one |
| Capacity.CapStep | kernel/net/netfilter/ipset/ip_set_hash_gen.h:857-872 | an add that passes the check keeps the sum of max(count, share) within maxelem + (regions-1) * share, and no counter wraps |
| Capacity.CapStart | kernel/net/netfilter/ipset/ip_set_hash_gen.h:1605 | an empty table satisfies that invariant |
| Capacity.BoundOneRegion | kernel/net/netfilter/ipset/ip_set_hash_gen.h:1605 | with one region the bound is maxelem |
| Capacity.AddAll | kernel/net/netfilter/ipset/ip_set_hash_gen.h:838-1029 | every run of adds into a set that create returns, of any size it accepts and without timeouts, stays within the bound, and the counters add up to the number of elements without wrapping |
| RangeAdd.DecodeOk | kernel/net/netfilter/ipset/ip_set_hash_ipportnet.c:191-268 | an accepted request is one masked element or three non-empty ranges; the block range never spans all addresses |
| RangeAdd.DecodeCovers | kernel/net/netfilter/ipset/ip_set_hash_ipportnet.c:191-268 | the job of an accepted range request covers exactly the triples that the attributes name, with the protocol sent |
| RangeAdd.DecodeSingle | kernel/net/netfilter/ipset/ip_set_hash_ipportnet.c:191-233 | a single element has the address, port, protocol and prefix that the attributes name |
| RangeAdd.DecodeIff | kernel/net/netfilter/ipset/ip_set_hash_ipportnet.c:191-260 | each answer of the decoding is given exactly when it is due |
| RangeAdd.FromSound | kernel/net/netfilter/ipset/ip_set_hash_ipportnet.c:278-302 | every element processed is an aligned block inside the requested ranges |
| RangeAdd.FromOrdered | kernel/net/netfilter/ipset/ip_set_hash_ipportnet.c:278-302 | the elements come in strictly increasing (address, port, block) order and blocks do not overlap |
| RangeAdd.FromComplete | kernel/net/netfilter/ipset/ip_set_hash_ipportnet.c:278-302 | every (address, port, second address) of the request lies in some element |
| RangeAdd.AllTiles | kernel/net/netfilter/ipset/ip_set_hash_ipportnet.c:270-304 | each (address, port, second address) of the request is in exactly one element: the blocks tile the range |
| RangeAdd.ApplyIs | kernel/net/netfilter/ipset/ip_set_hash_ipportnet.c:292-297 | after a range request all its elements are live with the requested data, or none is; all others are as before |
| RangeAdd.AdOne | kernel/net/netfilter/ipset/ip_set_hash_ipportnet.c:292-297 | one element is added or deleted, or refused without change and with the error due |
| RangeAdd.BlockStep | kernel/net/netfilter/ipset/ip_set_hash_ipportnet.c:282-298 | one round of the inner loop processes exactly the next element, or saves it as the resume position |
| RangeAdd.Blocks | kernel/net/netfilter/ipset/ip_set_hash_ipportnet.c:282-299 | the block loop processes the blocks of one address and port up to the end or a cut |
| RangeAdd.Ports | kernel/net/netfilter/ipset/ip_set_hash_ipportnet.c:280-301 | the port loop processes the ports of one address |
| RangeAdd.Uadt | kernel/net/netfilter/ipset/ip_set_hash_ipportnet.c:270-304 | one run, fresh or resumed, processes a prefix of the remaining elements and leaves the resume position at the rest; a cut comes only after 2^14 elements; a range up to 255.255.255.255 is never completed: its addresses are followed by all from 0.0.0.0 on |
| RangeAdd.BeyondRequest | kernel/net/netfilter/ipset/ip_set_hash_ipportnet.c:278 | behind a range up to 255.255.255.255 comes an element of address 0.0.0.0 that was not requested |
| RangeAdd.FromWide | kernel/net/netfilter/ipset/ip_set_hash_ipportnet.c:270-304 | what follows a position does not depend on where the range began |
| RangeAdd.CallAd | kernel/net/netfilter/ipset/ip_set_core.c:1785-1810 | however often -ERANGE or -EAGAIN cut the loop, success means every element was processed once, in order; failure those before an element that was refused as existing or missing, as full, for want of memory, or because no larger table can take the elements; a range below 255.255.255.255 always ends, one up to it never succeeds |
| RangeAdd.AddRangeThenTest | kernel/net/netfilter/ipset/ip_set_hash_ipportnet.c:270-304 | after a successful range add every address of the range matches |
| RangeAdd.Enlarge | kernel/net/netfilter/ipset/ip_set_core.c:1785-1810 | the resize after -EAGAIN keeps the live elements, or fails for want of memory or because no larger table can take them |
| RangeAdd.CallOne | kernel/net/netfilter/ipset/ip_set_core.c:1785-1810 | a single element is added or deleted, resizing as often as needed, or refused with the error due |
| RangeAdd.AddDel | kernel/net/netfilter/ipset/ip_set_hash_ipportnet.c:152-305 | the add or delete command from its attributes on: the element or all elements they name are processed, or those before one that is refused with the error due |
| RangeAdd.TestOne | kernel/net/netfilter/ipset/ip_set_hash_ipportnet.c:152-233 | the test command from its attributes on tests the element they name |
| RangeAdd.AddThenTest | kernel/net/netfilter/ipset/ip_set_hash_ipportnet.c:152-305 | after a successful add command every address, port and second address it names is found in the set |
| HashIpRange.DecodeIpSafe | kernel/net/netfilter/ipset/ip_set_hash_ip.c:125-151 | every range accepted starts at a subnet address or leaves a whole subnet before 2^32 |
| HashIpRange.DecodeIpIff | kernel/net/netfilter/ipset/ip_set_hash_ip.c:125-151 | the range decoded is exactly the one asked for; 0.0.0.0 as an end and a bad prefix length are refused |
| HashIpRange.StepsAre | kernel/net/netfilter/ipset/ip_set_hash_ip.c:153-171 | the subnets processed are lo, lo + hosts, ... up to the end |
| HashIpRange.StepOn | kernel/net/netfilter/ipset/ip_set_hash_ip.c:165-167 | the step to the next subnet stays below 2^32 or wraps exactly to the guarded zero |
| HashIpRange.IpSet.Uadt | kernel/net/netfilter/ipset/ip_set_hash_ip.c:153-172 | one run processes a prefix of the remaining subnets and resumes at the rest; up to 255.255.255.255 the wrap guard ends it; it fails only with the error of the next subnet |
| HashIpRange.IpSet.CallAd | kernel/net/netfilter/ipset/ip_set_core.c:1785-1810 | every subnet of the range is processed once, in order, however often the loop is cut, up to one that is refused or for which the table cannot grow |
| Retirement.InvStep | kernel/net/netfilter/ipset/ip_set_hash_gen.h:570-793 | every step of users and resizer without the start race keeps: counts equal users, only replaced or copied tables are marked, each freed at most once and only unused |
| Retirement.RunInv | kernel/net/netfilter/ipset/ip_set_hash_gen.h:570-793 | the same over whole runs |
| Retirement.RunSafeIff | kernel/net/netfilter/ipset/ip_set_hash_gen.h:674-793 | a run never destroys a table in use, or twice, or the current one, exactly when no last user leaves between the resizer's setting of ref and its own reference |
| Retirement.AtomicStartSafe | kernel/net/netfilter/ipset/ip_set_hash_gen.h:674-676 | if those two steps are one, every run is safe |
| Retirement.RunReclaims | kernel/net/netfilter/ipset/ip_set_hash_gen.h:755-793 | without the race every replaced table is destroyed once its last user has left |
| Retirement.RaceHappens | kernel/net/netfilter/ipset/ip_set_hash_gen.h:674-676 | a concrete run in which the current table is destroyed |
| Retirement.CanGoOn | kernel/net/netfilter/ipset/ip_set_hash_gen.h:570-793 | in every reachable state each user and the resizer can take the next step, the resizer once the readers of the old table are through |
| Retirement.ResizeHappens | kernel/net/netfilter/ipset/ip_set_hash_gen.h:620-793 | a concrete whole resize: the old table is destroyed once, by the user that leaves it last |
| StableSort.SortPerm | lib/list_sort.c:99-141 | the sorted list is a permutation of the input nodes |
| StableSort.SortSorted | lib/list_sort.c:99-141 | in the sorted list cmp(a, b) <= 0 for every node a before a node b, for any total preorder |
| StableSort.SortStable | lib/list_sort.c:94-141 | a node keeps its place before every later one that does not sort before it |
| StableSort.SortMeans | lib/list_sort.c:94-141 | the sorted list is the same nodes, ascending by cmp; an earlier node stays in front of a later one it does not compare greater than, and goes behind one it does |
| StableSort.MergeSort | lib/list_sort.c:14-34 | merging the sorted earlier and later parts of the input, left first on equality, sorts the whole |
| StableSort.CatPut | lib/list_sort.c:122-133 | with the lower levels empty, what is put into a level is the end of the input read so far |
| ListSort.MergeChains | lib/list_sort.c:14-34 | relinking two null-terminated chains gives the chain of their merge |
| ListSort.MergeAndRestore | lib/list_sort.c:43-83 | the final merge gives a proper circular doubly linked list of head and the merged nodes |
| ListSort.RestoreOne | lib/list_sort.c:77-79 | one round of the restoring loop sets the back link of the next node and reports the end of the chain |
| ListSort.CloseRing | lib/list_sort.c:81-82 | the last node and the head are linked to each other |
| ListSort.MergeLevel | lib/list_sort.c:122-125 | merging a level into the chain keeps all nodes accounted for in input order |
| ListSort.Climb | lib/list_sort.c:122-125 | the inner loop ends at the first empty level, at most one above the highest in use |
| ListSort.InsertNode | lib/list_sort.c:117-134 | reading one node keeps the highest level in use non-empty, the levels above it and the sentinel empty, in either polarity of the cap test |
| ListSort.Collect | lib/list_sort.c:136-138 | the last loop leaves the highest level and one chain that together are the whole input in order |
| ListSort.SortList | lib/list_sort.c:99-141 | the circular list of the input becomes the circular list of the same nodes, ascending by cmp, a node staying in front of every later one it does not compare greater than; in either polarity |
| ListSort.LastMerge | lib/list_sort.c:136-140 | the first chain of the final merge is not empty, and the merge is the sorted input |
| RegistryModel.FindFrom | kernel/net/netfilter/ipset/ip_set_core.c:985-1000 | the first slot from an index on with a set of that name |
| RegistryModel.FreeFrom | kernel/net/netfilter/ipset/ip_set_core.c:1017-1028 | the first empty slot from an index on |
| RegistryModel.GrowthBounded | kernel/net/netfilter/ipset/ip_set_core.c:1133-1137 | growth by 64 in 16 bits is granted exactly when the new size stays below 65535 |
| RegistryModel.CreateKeeps | kernel/net/netfilter/ipset/ip_set_core.c:1120-1159 | creating keeps names distinct, existing slots and counts, and the bound; on success the name is found, on failure nothing changes |
| RegistryModel.CreateClash | kernel/net/netfilter/ipset/ip_set_core.c:1120-1130 | a name in use is a success exactly for a set of the same type with the exist flag; nothing changes |
| RegistryModel.CreateNew | kernel/net/netfilter/ipset/ip_set_core.c:1131-1159 | a new name succeeds exactly when a slot is free or the table can grow below 65535; it gets the first free slot, unreferenced, and nothing else changes |
| RegistryModel.DestroyKeeps | kernel/net/netfilter/ipset/ip_set_core.c:1277-1289 | destroying one set removes exactly the slot of that name, never a referenced one |
| RegistryModel.DestroyIff | kernel/net/netfilter/ipset/ip_set_core.c:1273-1303 | a set is destroyed exactly when it is there without references; the exist flag excuses a missing one |
| RegistryModel.DestroyAllKeeps | kernel/net/netfilter/ipset/ip_set_core.c:1255-1272 | destroying all sets happens only when nothing is referenced |
| RegistryModel.DestroyAllIff | kernel/net/netfilter/ipset/ip_set_core.c:1251-1272 | all sets are destroyed exactly when none is referenced |
| RegistryModel.RenameKeeps | kernel/net/netfilter/ipset/ip_set_core.c:1377-1395 | renaming moves the slot to the new name, which nobody else has, and only when unreferenced |
| RegistryModel.RenameIff | kernel/net/netfilter/ipset/ip_set_core.c:1377-1400 | a set gets the new name exactly when it is there, unreferenced, and nobody has that name; only the name changes |
| RegistryModel.SwapKeeps | kernel/net/netfilter/ipset/ip_set_core.c:1428-1460 | swapping exchanges the contents behind two names; every slot keeps its name and counts |
| RegistryModel.SwapIff | kernel/net/netfilter/ipset/ip_set_core.c:1428-1463 | two sets exchange contents exactly when their features and families agree and no dump is inside either; names and counts stay |
| RegistryModel.SwapMissing | kernel/net/netfilter/ipset/ip_set_core.c:1428-1447 | a missing set gives the error for the first or the second name |
| RegistryModel.ReleaseHold | kernel/net/netfilter/xt_set.c:473-553 | giving back exactly what was taken restores the table |
| Registry.IpSetNet.constructor | kernel/net/netfilter/ipset/ip_set_core.c:2473-2486 | a new registry is empty with at most 65534 slots |
| Registry.IpSetNet.FindSetAndId | kernel/net/netfilter/ipset/ip_set_core.c:985-1000 | the loop finds exactly the first slot of the name, or 65535 |
| Registry.IpSetNet.FindFreeId | kernel/net/netfilter/ipset/ip_set_core.c:1010-1033 | a name clash wins over a free slot; otherwise the first free slot or -MAX_SETS |
| Registry.IpSetNet.Create | kernel/net/netfilter/ipset/ip_set_core.c:1120-1159 | the array and its growth do what the registry model says |
| Registry.IpSetNet.Grow | kernel/net/netfilter/ipset/ip_set_core.c:1139-1151 | the larger array has every set behind its old index and empty slots after |
| Registry.IpSetNet.Destroy | kernel/net/netfilter/ipset/ip_set_core.c:1273-1303 | destroying one set in the array is the model's step |
| Registry.IpSetNet.DestroyAll | kernel/net/netfilter/ipset/ip_set_core.c:1251-1272 | the check and the emptying loop together are the model's step |
| Registry.IpSetNet.BeginDestroyAll | kernel/net/netfilter/ipset/ip_set_core.c:1251-1263 | is_destroyed is set exactly when no count of any set is left |
| Registry.IpSetNet.ClearSlot | kernel/net/netfilter/ipset/ip_set_core.c:1264-1270 | one round of the emptying loop removes exactly that slot |
| Registry.IpSetNet.Rename | kernel/net/netfilter/ipset/ip_set_core.c:1377-1400 | renaming the object is the model's step |
| Registry.IpSetNet.Swap | kernel/net/netfilter/ipset/ip_set_core.c:1428-1463 | the checks and the exchange are the model's step |
| Registry.IpSetNet.Exchange | kernel/net/netfilter/ipset/ip_set_core.c:1453-1459 | exchanging names, counts and pointers of two objects, also when both are one, leaves names and counts with the slots |
| Registry.IpSetNet.GetByIndex | kernel/net/netfilter/ipset/ip_set_core.c:894-912 | takes one reference on the set behind the index, or answers 65535 |
| Registry.IpSetNet.GetByName | kernel/net/netfilter/ipset/ip_set_core.c:817-837 | takes one reference on the set of the name, or answers 65535 |
| Registry.IpSetNet.Put | kernel/net/netfilter/ipset/ip_set_core.c:921-932 | gives one reference back |
| Registry.IpSetNet.GetNetlink | kernel/net/netfilter/ipset/ip_set_core.c:687-693 | takes one dump reference |
| Registry.IpSetNet.PutNetlink | kernel/net/netfilter/ipset/ip_set_core.c:695-702 | gives one dump reference back |
| XtSet.MatchCheckentry | kernel/net/netfilter/xt_set.c:150-170 | holds the index once if the set exists and the dimension is in range; else the table is unchanged |
| XtSet.MatchDestroy | kernel/net/netfilter/xt_set.c:172-178 | gives that reference back |
| XtSet.TargetCheckentry | kernel/net/netfilter/xt_set.c:473-540 | a failed check leaves all counts unchanged, with the error of the first failing test; a passed one holds each index once per use |
| XtSet.VerdictIff | kernel/net/netfilter/xt_set.c:473-540 | each answer of the check is given exactly when it is due |
| XtSet.CheckDel | kernel/net/netfilter/xt_set.c:490-540 | from the second set on: every reference taken is given back on failure |
| XtSet.CheckMap | kernel/net/netfilter/xt_set.c:501-540 | from the map set on: hook, existence and dimensions are judged in this order, and its reference is given back on failure |
| XtSet.TargetDestroy | kernel/net/netfilter/xt_set.c:542-553 | gives back exactly what the check took |
| RegistryRun.HeldIsThere | kernel/net/netfilter/ipset/ip_set_core.c:675-682 | in every reachable state what a holder holds is a valid index of a set with a positive count: put never meets zero |
| RegistryRun.HeldRefuses | kernel/net/netfilter/ipset/ip_set_core.c:1251-1450 | a referenced set is neither destroyed nor renamed; one inside which a dump is, not swapped either |
| RegistryRun.StepInv | kernel/net/netfilter/ipset/ip_set_core.c:667-1740 | every command, check, put and dump call, and every step of destroying all sets, keeps: names distinct, fewer than 65535 slots, both counts of each slot equal to what is outstanding |
| RegistryRun.StepStable | kernel/net/netfilter/ipset/ip_set_core.c:667-1740 | no step moves or renames a held slot, nor changes the content of one a dump is in; the table never shrinks |
| RegistryRun.CheckMatchIff | kernel/net/netfilter/xt_set.c:150-170 | a match rule is held with one reference exactly when its set is there and its dimension is at most 6 |
| RegistryRun.CheckTargetIff | kernel/net/netfilter/xt_set.c:473-540 | a target rule is held with one reference a use exactly when all its sets are there, its hooks fit and its dimensions are at most 6 |
| RegistryRun.AddMemberIff | kernel/net/netfilter/ipset/ip_set_core.c:817-837 | a list set holds a member with one reference exactly when there is a set of that name |
| RegistryRun.DropIff | kernel/net/netfilter/ipset/ip_set_core.c:667-682 | a holder that goes gives back exactly what it took |
| RegistryRun.DumpStartIff | kernel/net/netfilter/ipset/ip_set_core.c:1536-1593 | a dump is started over all slots, or in the slot of the set asked for, exactly when there is one |
| RegistryRun.DumpStopIff | kernel/net/netfilter/ipset/ip_set_core.c:1499-1514 | a dump that is stopped is gone and gives back its reference |
| RegistryRun.DestroyedNothing | kernel/net/netfilter/ipset/ip_set_core.c:1634-1642 | while all sets are being destroyed a dump call emits nothing and changes nothing |
| RegistryRun.DestroyAllSteps | kernel/net/netfilter/ipset/ip_set_core.c:1251-1272 | the steps of destroying all sets make up the one step of the table model |
| RegistryRun.InitInv | kernel/net/netfilter/ipset/ip_set_core.c:2473-2486 | an empty registry satisfies the invariant |
| RegistryRun.RunInv | kernel/net/netfilter/ipset/ip_set_core.c:667-1740 | the invariant holds after every run, and everything held can be given back |
| RegistryExec.Command | kernel/net/netfilter/ipset/ip_set_core.c:1035-1463 | a command on the objects is the state machine's step |
| RegistryExec.DestroyingAll | kernel/net/netfilter/ipset/ip_set_core.c:1251-1272 | each step of destroying all sets on the objects is the state machine's step |
| RegistryExec.Holding | kernel/net/netfilter/xt_set.c:135-553 | a check or a destroyed rule on the objects is the state machine's step |
| RegistryExec.Give | kernel/net/netfilter/xt_set.c:172-553 | a holder that goes can give back everything it took |
| RegistryExec.Dumping | kernel/net/netfilter/ipset/ip_set_core.c:1499-1740 | a dump call on the objects is the state machine's step |
| RegistryExec.Execute | kernel/net/netfilter/ipset/ip_set_core.c:667-1740 | any step on slot array, set objects and callbacks is the state machine's step |
| RegistryExec.RunNew | kernel/net/netfilter/ipset/ip_set_core.c:667-2493 | any run of the registry in memory is a run of the state machine, so that its invariant holds of the objects |
| DumpModel.Next | kernel/net/netfilter/ipset/ip_set_core.c:1628-1654 | the first slot this phase emits: lists are left to the last phase |
| DumpModel.EmitBalanced | kernel/net/netfilter/ipset/ip_set_core.c:1656-1731 | every exit of a message leaves ref_netlink raised exactly by what the dump still holds |
| DumpModel.Balanced | kernel/net/netfilter/ipset/ip_set_core.c:1596-1740 | the same for a whole call, also when all sets are being destroyed |
| DumpModel.StopBalanced | kernel/net/netfilter/ipset/ip_set_core.c:1499-1514 | the done callback gives back what the dump holds, also early |
| DumpModel.ChosenHead | kernel/net/netfilter/ipset/ip_set_core.c:1628-1712 | the set a call emits is the head of what remains to be emitted |
| DumpModel.DoHead | kernel/net/netfilter/ipset/ip_set_core.c:1596-1740 | a successful call emits the head of what remains, pauses in it, or ends with nothing left |
| DumpModel.EmitFails | kernel/net/netfilter/ipset/ip_set_core.c:1656-1731 | which failing call leaves the dump at its set and which goes on to the next; the dump reference is held on exactly inside a set |
| DumpModel.DoRefused | kernel/net/netfilter/ipset/ip_set_core.c:1628-1646 | where the set asked for is gone, or all are being destroyed, a dump of one set fails, any other ends, and nothing changes |
| DumpModel.TraceExact | kernel/net/netfilter/ipset/ip_set_core.c:1596-1740 | repeated calls on an unchanging table complete what remains, in order and once each, however the sets are split into messages |
| DumpModel.TraceEnds | kernel/net/netfilter/ipset/ip_set_core.c:1596-1740 | one call per set, per pause and one more end the dump |
| DumpModel.DumpAll | kernel/net/netfilter/ipset/ip_set_core.c:1596-1740 | a whole dump emits the plain sets in slot order, then the lists unless the last slot holds a plain set |
| DumpModel.StartIff | kernel/net/netfilter/ipset/ip_set_core.c:1552-1580 | a dump of one set starts in the slot of that name and is refused when there is none |
| DumpModel.DumpNamed | kernel/net/netfilter/ipset/ip_set_core.c:1552-1740 | a dump of one set emits exactly that set |
| DumpModel.DumpAllCompleteIff | kernel/net/netfilter/ipset/ip_set_core.c:1618-1721 | a whole dump emits every set exactly when not both the last slot holds a plain set and there is a list |
| DumpModel.ListLeftOut | kernel/net/netfilter/ipset/ip_set_core.c:1618-1721 | a concrete table: a list in slot 0 before a plain set in slot 1 is left out although every call succeeds; the other way round both are emitted |
| DumpModel.SlotsAscending | kernel/net/netfilter/ipset/ip_set_core.c:1628-1654 | each phase goes through the slots in ascending order |
| Dump.DumpStart | kernel/net/netfilter/ipset/ip_set_core.c:1536-1593 | a dump starts at the set asked for, or at the first slot, or not at all when that set does not exist |
| Dump.ScanPhase | kernel/net/netfilter/ipset/ip_set_core.c:1628-1654 | the loop stops at the first set the phase emits, or where the set asked for is gone, or where all are being destroyed |
| Dump.EmitSet | kernel/net/netfilter/ipset/ip_set_core.c:1656-1731 | the message building and its exits do what the dump model says |
| Dump.FinishSet | kernel/net/netfilter/ipset/ip_set_core.c:1715-1731 | next_set and release_refcount do what the dump model says |
| Dump.DumpDo | kernel/net/netfilter/ipset/ip_set_core.c:1596-1740 | one call on the registry in memory is the model's call |
| Dump.DumpDone | kernel/net/netfilter/ipset/ip_set_core.c:1499-1514 | the done callback is the model's |
| BitmapIp.RangeBits | kernel/net/netfilter/ipset/ip_set_bitmap_ip.c:244-254 | the longest prefix length from 1 to 31 under which the end masks to the start, or 0 |
| BitmapIp.RangeToMask | kernel/net/netfilter/ipset/ip_set_bitmap_ip.c:244-254 | the shifting loop finds that length and its mask, 0 for none |
| BitmapIp.CreateOk | kernel/net/netfilter/ipset/ip_set_bitmap_ip.c:275-319 | every accepted range is aligned and covered by 1 to 65536 subnets that end at or before 2^32 |
| BitmapIp.CreateIff | kernel/net/netfilter/ipset/ip_set_bitmap_ip.c:244-319 | for a request of the addresses lo..hi: exactly their subnets become the map, with fewer than twice as many bits as needed, or which error comes when |
| BitmapIp.CreateRefused | kernel/net/netfilter/ipset/ip_set_bitmap_ip.c:262-280 | a missing second end and a bad prefix length are refused |
| BitmapIp.IdOfAddress | kernel/net/netfilter/ipset/ip_set_bitmap_ip.c:60-64 | an in-range address has an id below elements, and first_ip + id * hosts is its subnet, without wrap-around |
| BitmapIp.SameIdIff | kernel/net/netfilter/ipset/ip_set_bitmap_ip.c:60-64 | two in-range addresses share an id exactly when they are in the same subnet |
| BitmapIp.AddressOfId | kernel/net/netfilter/ipset/ip_set_bitmap_ip.c:94-100 | the address listed for an id is an address with that id |
| Bitmap.AddInSteps | kernel/net/netfilter/ipset/ip_set_bitmap_gen.h:130-173 | the four outcomes of do_add, put together with the rest of the add, give the specified slot and result |
| Bitmap.AddIff | kernel/net/netfilter/ipset/ip_set_bitmap_gen.h:130-173 | an add is refused exactly for an element that is there, not over, not completed by it and not to be overwritten; the MAC and flags it leaves |
| Bitmap.AddLasts | kernel/net/netfilter/ipset/ip_set_bitmap_ipmac.c:118-143 | an element added with its MAC is over exactly after its timeout, or the one stored before it; without a MAC the timeout is kept |
| Bitmap.DelIff | kernel/net/netfilter/ipset/ip_set_bitmap_gen.h:175-193 | a delete clears the bit and succeeds exactly for an element that is there and not over |
| Bitmap.TestIff | kernel/net/netfilter/ipset/ip_set_bitmap_ipmac.c:85-98 | yes exactly for an element that is there with the MAC given; the MAC is asked for exactly when one of the two is missing |
| Bitmap.AddStoresMacIff | kernel/net/netfilter/ipset/ip_set_bitmap_ipmac.c:145-181 | after a successful add with a MAC that MAC is the stored one, except exactly when an expired element is revived without the exist flag |
| Bitmap.RevivedWithOldMac | kernel/net/netfilter/ipset/ip_set_bitmap_ipmac.c:145-181 | a concrete element that is revived with its old MAC |
| Bitmap.CompletedTimeout | kernel/net/netfilter/ipset/ip_set_bitmap_ipmac.c:118-143 | a timeout given before the MAC is known counts from the moment the MAC is filled in |
| Bitmap.WaitingTakenForExpired | kernel/net/netfilter/ipset/ip_set_bitmap_gen.h:139-193 | an element waiting for its MAC is never collected, yet once the clock passes its stored timeout a delete reports it missing and an add accepts it again |
| Bitmap.BitmapSet.DoAdd | kernel/net/netfilter/ipset/ip_set_bitmap_ipmac.c:145-181 | do_add leaves the specified slot and outcome, all other slots unchanged |
| Bitmap.BitmapSet.Add | kernel/net/netfilter/ipset/ip_set_bitmap_gen.h:130-173 | exactly the bit of the element is set, the slot is as specified, and elements is the number of set bits |
| Bitmap.BitmapSet.Del | kernel/net/netfilter/ipset/ip_set_bitmap_gen.h:175-193 | exactly that bit is cleared, the result is as specified, and elements is the number of set bits |
| Bitmap.BitmapSet.Gc | kernel/net/netfilter/ipset/ip_set_bitmap_gen.h:265-289 | exactly the elements with a MAC whose timeout is over are cleared, and elements is the number of set bits |
| Bitmap.BitmapSet.Flush | kernel/net/netfilter/ipset/ip_set_bitmap_gen.h:70-80 | no bit is set and elements is 0 |
| Bitmap.BitmapSet.Test | kernel/net/netfilter/ipset/ip_set_bitmap_ipmac.c:85-98 | yes exactly for a bit that is set with the MAC given, otherwise no or a request for the MAC |
| Bitmap.BitmapSet.Run | kernel/net/netfilter/ipset/ip_set_bitmap_gen.h:70-289 | after every run of add, del, gc and flush the slots are as specified and elements is the number of set bits |
| Session.SentNested | lib/session.c:1753-1767 | every message is balanced and at most two nests deep |
| Session.ReadSent | lib/session.c:2095-2121 | a message determines its batch: command, set name, line and elements are read back as put in |
| Session.SentBegins | lib/session.c:2077-2105 | a message begins with its command and set name, then the line number and the nest of a restore, closed at the end |
| Session.SentHolds | lib/session.c:2106-2121 | every set field of every element is in the message, and its line number |
| Session.LargestElement | lib/session.c:471-573 | every attribute of the table may be present, each as long as its type allows |
| Session.EnoughRoom | lib/session.c:471-573 | what the attribute table allows an element takes a bounded number of bytes: with that much room every attribute passes its check |
| Session.EveryElementFits | lib/session.c:1796-1917 | every element the data blob can hold fits a message of its own, whatever the set name, in a buffer of one page or more |
| Session.SessionState.OpenNested | lib/session.c:1753-1760 | opens a nest unless there is no room for its header |
| Session.SessionState.CancelNested | lib/session.c:2111-2118 | cuts the message back to where the nest began |
| Session.SessionState.AddAttrs | lib/session.c:1907-1917 | puts every set field in attribute order, or stops at the first one without room |
| Session.SessionState.AddElem | lib/session.c:2107-2120 | appends the whole element exactly when all of it finds room, else leaves the message as it was |
| Session.SessionState.Build | lib/session.c:2077-2121 | the batch grows by the element, or keeps its elements and reports a full buffer |
| Session.SessionState.Commit | lib/session.c:2162-2203 | what is buffered is sent as one batch and nothing else changes in what was taken |
| Session.SessionState.Command | lib/session.c:2236-2341 | the element is taken after everything before it, in the message begun exactly when command and set are the same, both lines are of a restore, and it fits; else in a new one |
| Session.SessionState.Restore | lib/session.c:1973-2341 | for every input the messages sent, read back and flattened, are the issued commands, nothing lost, repeated or reordered; each message is balanced and leaves the buffer room for an error reply |
| BuildArgv.Parser.Reset | lib/ipset.c:561-573 | all arguments but the program name are gone |
| BuildArgv.Parser.Build | lib/ipset.c:575-641 | the loop over the line gives the parsed arguments in newargv, or the parse error |
| BuildArgv.ParseLine | lib/ipset.c:576-641 | parsing undoes writing for any arguments put together of quoted and unquoted stretches: all back up to 30, "line too long" beyond |
| BuildArgv.NewlineAtEnd | lib/ipset.c:617-638 | where the quotes are closed a missing newline at the end makes no difference |
| BuildArgv.MissingQuoteIff | lib/ipset.c:617-622 | an open quote is reported exactly when the line does not end in white space |
| BuildArgv.OpenQuoteDropped | lib/ipset.c:603-622 | a concrete line whose unclosed last argument is dropped without an error |

## Left out

- HashTable.HTable: buckets are values in the array, so a reader that keeps a pointer to a replaced bucket, and the order of single stores seen by lockless readers, are not modelled.
- HashSets.HashSet.Add: does not model forceadd eviction, counters, comments, skbinfo, memory sizes and the sets with multiple matches per element; extensions are opaque data replaced as a whole.
- HashSets.HashSet.Add: the backlog that kernel-side add and del leave during a resize is empty.
- HashSets.HashSet.Test: does not model counter matching, which could reject a matching element.
- HashSets.HashSet.Add: memory is one input of a call: with it every allocation succeeds, without it any may fail.
- HashSets.HashSet.Add: where a slot could be reused at first, a refusal is shown to be due but not which calls must be refused, because collecting may compact the bucket.
- HashResize.Resize: adds and deletes that run during the copy are not interleaved with it; Retirement covers their references only.
- HashList.ListCall: lists a table that does not change between calls; expiry between calls is outside. An element and its extensions take a number of bytes given by any function of them.
- Capacity.AddAll: bounds runs of adds without timeouts and deletes, because a deleted slot is reused without the full check.
- NetIndex.NetPrefixes: prefix counts are unbounded numbers, not 32-bit ones.
- RangeAdd.CallAd: no other command runs between two rounds, and all rounds read the same clock.
- RangeAdd.CallAd: a request up to 255.255.255.255 need not end; it is followed for any given number of rounds.
- HashIpRange.IpSet: the set behind the loop is a log of what it processed; its own operations are those of the generic hash set.
- HashIpRange.IpSet.Grow: a resize that either enlarges the table within the allocation limit or fails.
- Retirement.InvStep: one resizer at a time, as the set's lock ensures; users are abstract.
- ListSort.SortList: the extra comparison calls that only yield the processor are not modelled, nor a comparison that is not a total preorder.
- RegistryModel.Create: starts when the set itself is built; type lookup, attribute parsing and allocation of the set come before.
- RegistryModel.Ok: names have no length limit; reference counts are unbounded numbers.
- RegistryRun.StepInv: one dump call is one step. While all sets are being destroyed, commands, checks and the start of a dump wait, as the netlink subsystem lock makes them.
- RegistryRun.StepInv: list:set members count as holders by name; the members' own list operations are not modelled.
- XtSet.MatchCheckentry: stands for all match revisions; XtSet.TargetCheckentry for target revision 3, the older ones being shorter forms.
- DumpModel.Do: what the set types write into a message is the success of each call and the cursor left behind; the extra table reference that a dump of a hash set holds is in Retirement.
- BitmapIp.CreateOk: stops before the allocation; the add and delete loops over address ranges of bitmap:ip are not modelled.
- Bitmap.BitmapSet.Add: one unit of time for seconds and clock ticks; counters, comments and skbinfo are not modelled.
- Session.SessionState.Command: covers add and del with set name and type present; other commands appear as the commit they force. A value is a string of bytes of the length its type has. A failing send and the protocol check are not modelled.
- Session.SessionState.Begin: header, set name and line number are put without a check for room, which a page always has.
- BuildArgv.Parser.Build: allocation failures are not modelled.
- Netlink encoding, sockets, packet parsing, port extraction and the ematch glue: foreign calls and I/O.
- Sets with two network fields, IPv6 variants, the other hash and bitmap types: same structure, more cases.
- list:set element operations, the userspace type registry and set cache, argument tables, printing and name lookup.
