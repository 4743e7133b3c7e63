# CenturyLink Cloud dynamic inventory: a verified model

This project models the inventory-building core of `clc_ssh.py`, a
script that builds a dynamic inventory of CenturyLink Cloud (CLC)
servers for SSH configuration. The model covers these steps:

- the datacenter allow-list filter (`CLC_FILTER_DATACENTERS`);
- the recursive walk of each datacenter's server-group tree, which
  builds a map from group name to host list;
- dropping datacenters that contributed nothing;
- the cross-datacenter merge of the per-datacenter maps;
- the `_flatten_list` / `_is_list_flat` pair;
- extracting the set of servers from the merged groups;
- the per-server hostvars record and the fold of all records into one
  dictionary.

## How the model is built

Provider responses are plain input values. Datacenters, groups, their
subgroups and server lists, and the server records the API would return
are the datatypes of `provider.dfy`.

Functions state what each step computes. Where the script loops and
updates a dictionary, the model has a method with a loop:

- `GroupWalker.FindAllServersForGroup`, `GroupMerge.ParseGroupsResultToDict`,
  `GroupMerge.MergeOne` and `Nesting.FlattenList` are proved equal to
  the functions `GroupWalker.Walk`, `GroupMerge.Merge`,
  `GroupMerge.AddGroups` and `Nesting.Flatten`.
- `Nesting.IsListFlat` is proved to return exactly the predicate
  `Nesting.IsFlat`.
- `Inventory.FindAllGroups` merges the kept results in an order chosen
  freely, standing for `sorted()`'s. It is proved to give the same keys,
  and the same hosts under each key, as `Inventory.AllGroups`, the merge
  in datacenter order.
- `Hostvars.FoldHostvars` is specified directly: its keys are the names
  of the successful results, and each key holds the last such record.
  `Hostvars.FindAllHostvarsForServers` has no loop of its own: it maps
  the per-server step over the ids and then runs that fold.

The main results:

- The recursive walker, a right fold over the group tree, writes exactly
  what a flat left-to-right fold over the tree's post-order listing
  writes (`GroupWalker.CollectIsWrites`). The key sets and the
  last-writer-wins values follow from this.
- A group key is in the merged inventory exactly when some group of some
  selected datacenter writes it. Merged in datacenter order, its host
  list is the concatenation of what each datacenter recorded under that
  key. Merged in any other order, as `sorted()` may choose, it holds the
  same hosts, each as many times, with only their order changed
  (`GroupMerge.MergePermutation`, `Inventory.SortedMerge`).
- Every group of the inventory has at least one host, and every host is
  a server name.
- Python list concatenation does not deduplicate, so the merged lists
  keep every host (`GroupMerge.GatherCount`).
- Flattening terminates, yields a flat list, is idempotent and keeps the
  leaf order.
- The allow-list filter keeps exactly the datacenters whose upper-cased
  id is one of the comma-separated entries. It compares case-insensitively,
  does no trimming and keeps the input order.

## Model

| member | source | states |
|---|---|---|
| Text.Upper | clc_ssh.py:57-58 | `upper()` keeps the length and maps each character through ASCII upper-casing |
| Text.UpperIdempotent | clc_ssh.py:57-58 | upper-casing twice is the same as once |
| Text.UpperAppend | clc_ssh.py:57-58 | upper-casing distributes over concatenation |
| Text.Split | clc_ssh.py:58 | `split(',')` yields at least one piece and no piece contains the separator |
| Text.JoinSplit | clc_ssh.py:58 | joining the pieces of a split with the separator gives back the original string |
| Text.SplitJoin | clc_ssh.py:58 | splitting a join of separator-free pieces gives back the pieces |
| Text.SplitUpper | clc_ssh.py:58 | splitting the upper-cased list equals upper-casing each piece of the split |
| DatacenterFilter.Select | clc_ssh.py:57-58 | a datacenter is kept iff it is in the input and its upper-cased id is an entry; never longer than the input |
| DatacenterFilter.SelectAppend | clc_ssh.py:57-58 | the comprehension filters element-wise: filtering a concatenation concatenates the filtered parts |
| DatacenterFilter.SelectIsSubsequence | clc_ssh.py:57-58 | the kept datacenters appear in their original relative order |
| DatacenterFilter.SelectAll | clc_ssh.py:57-58 | when every datacenter is listed, the filter returns the input unchanged |
| DatacenterFilter.FilterDatacenters | clc_ssh.py:49-60 | unset or empty allow-list returns the input unchanged; otherwise membership iff the upper-cased id is a comma-separated entry of the upper-cased list |
| DatacenterFilter.InUpperEach | clc_ssh.py:57-58 | an upper-cased id is among the upper-cased entries iff some entry equals it case-insensitively |
| DatacenterFilter.ListedIffEntryMatches | clc_ssh.py:55-58 | the match is case-insensitive on both sides: an id is listed iff some raw entry upper-cases to the id's upper-case form |
| DatacenterFilter.ScenarioTwoOfThree | clc_ssh.py:55-58 | allow-list "WA1,UC1" over WA1, UC1, NY1 keeps WA1 and UC1, in that order |
| DatacenterFilter.ScenarioNoTrimming | clc_ssh.py:58 | entries are not trimmed: "wa1, uc1" does not select UC1 |
| DatacenterFilter.SelectScenario | clc_ssh.py:57-58 | with entries WA1 and UC1, WA1, UC1, NY1 select to WA1 and UC1 |
| DatacenterFilter.UpperNoTrimming | clc_ssh.py:58 | "wa1, uc1" upper-cases to "WA1, UC1" |
| DatacenterFilter.SelectNoTrimming | clc_ssh.py:57-58 | with entries WA1 and " UC1", UC1 is not selected |
| DatacenterFilter.UpperUnchanged | clc_ssh.py:57-58 | a string without lower-case letters is its own upper case |
| DatacenterFilter.SplitTwo | clc_ssh.py:58 | two comma-free entries joined by a comma split back into exactly those two |
| GroupWalker.QualifiedKey | clc_ssh.py:101-105 | the datacenter-qualified key `<DC>_<name>` is strictly longer than the group name, so the two keys differ |
| GroupWalker.Own | clc_ssh.py:91-105 | a default-type group with a readable, non-empty server list writes its servers under its name and its qualified key; no other key changes |
| GroupWalker.WritesAppend | clc_ssh.py:83-105 | the per-group writes fold over a concatenation in two stages |
| GroupWalker.WritesOver | clc_ssh.py:89 | folding onto an existing dict is `update` with what the fold writes on its own, so later writes win |
| GroupWalker.CollectIsWrites | clc_ssh.py:75-108 | the recursive walk (subgroups first, `update`, then the group itself) equals one left-to-right fold over the post-order listing of the tree |
| GroupWalker.WritesKeys | clc_ssh.py:83-105 | a key is present after the fold iff it was present before or some group in the listing writes it |
| GroupWalker.WritesValue | clc_ssh.py:83-105 | a key's value after the fold is the servers of its last writer |
| GroupWalker.CollectKeys | clc_ssh.py:75-108 | the walk's keys are exactly the keys written by some group anywhere in the tree |
| GroupWalker.CollectValue | clc_ssh.py:75-108 | each key maps to the server list of its last writer in post-order |
| GroupWalker.WalkSomeIff | clc_ssh.py:107-108 | the walk returns a dict (not None) iff some group anywhere in the tree contributes |
| GroupWalker.Walk | clc_ssh.py:107-108 | the walker's answer is never an empty dict, and none of its member lists is empty |
| GroupWalker.LastWriterExists | clc_ssh.py:83-105 | a key some group writes has a last writer |
| GroupWalker.CollectLast | clc_ssh.py:75-108 | every key of the walk has a last writer in post-order, and holds that group's member list |
| GroupWalker.CollectNonEmpty | clc_ssh.py:99-105 | the walk records no empty member list |
| GroupWalker.RecordOwn | clc_ssh.py:91-105 | skipping non-`default` and unreadable groups and recording a non-empty list under both keys is the group's own contribution |
| GroupWalker.FindAllServersForGroup | clc_ssh.py:75-108 | the loop with its recursive calls computes the walk |
| GroupWalker.FindGroupsForDatacenter | clc_ssh.py:63-73 | returns the walk of the datacenter's top-level groups, and a returned dict is never empty |
| Nesting.SeqSizeAppend | clc_ssh.py:193 | the nesting size of a list is additive over concatenation |
| Nesting.Chain | clc_ssh.py:193 | `chain.from_iterable` on a list of containers strictly lowers the nesting size by the number of containers |
| Nesting.ChainMembership | clc_ssh.py:193 | a value is in the chained list iff it is an item of one of the containers |
| Nesting.Flatten | clc_ssh.py:186-194 | the result is flat, and an already flat list is returned unchanged |
| Nesting.FlattenIdempotent | clc_ssh.py:186-194 | flattening twice equals flattening once |
| Nesting.LeavesAppend | clc_ssh.py:193 | the leaves of a concatenation are the concatenated leaves |
| Nesting.ChainLeaves | clc_ssh.py:193 | one chaining step keeps the leaves, in order |
| Nesting.FlattenLeaves | clc_ssh.py:186-194 | flattening keeps every leaf, in order |
| Nesting.Atoms | clc_ssh.py:100 | a list of server names becomes a list of non-iterable values, one per name |
| Nesting.AtomsFlat | clc_ssh.py:173 | a plain list of server names flattens to itself and its leaves are the names |
| Nesting.FlattenToAtoms | clc_ssh.py:186-194 | when the flattened list holds only scalars, it is exactly the leaves of the input |
| Nesting.AtomsOnly | clc_ssh.py:186-194 | a list of scalars is the list of its own leaves |
| Nesting.FlatAppend | clc_ssh.py:173 | concatenating two flat lists gives a flat list |
| Nesting.InLeaves | clc_ssh.py:183 | every name inside a member of a list is a name of the list |
| Nesting.IsListFlat | clc_ssh.py:197-212 | true iff the list is empty or some element is not a container |
| Nesting.FlattenList | clc_ssh.py:186-194 | the while loop terminates and computes the flattening |
| GroupMerge.AddNothing | clc_ssh.py:168-174 | processing no group keys leaves the accumulator unchanged |
| GroupMerge.AddOne | clc_ssh.py:170-173 | processing one group creates its key if missing and appends its flattened hosts |
| GroupMerge.MergeSnoc | clc_ssh.py:169-173 | one more result map folds its keys into the merge of the ones before |
| GroupMerge.MergeOfAtoms | clc_ssh.py:168-174 | a single map of server-name lists merges to itself |
| GroupMerge.MergeEmptyLast | clc_ssh.py:169-173 | an empty result map contributes nothing to the merge |
| GroupMerge.MergeAt | clc_ssh.py:162-174 | a key is merged iff some result has it; its host list is the in-order concatenation of its flattened lists from every result |
| GroupMerge.MergeStep | clc_ssh.py:170-173 | one result's effect on a single key: presence and appended hosts |
| GroupMerge.InSomeStep | clc_ssh.py:169-170 | some result has a key iff an earlier one or the last one does |
| GroupMerge.GatherAbsent | clc_ssh.py:162-174 | a key present in no result gathers no hosts |
| GroupMerge.GatherCount | clc_ssh.py:173 | for plain server lists, the merged list of a key is as long as all its lists together (nothing is deduplicated) |
| GroupMerge.Merge | clc_ssh.py:168-174 | the merge folds the result maps in sequence order, and every merged host list is flat |
| GroupMerge.ParseGroupsResultToDict | clc_ssh.py:162-174 | the nested loop computes the merge of the results in the given order |
| GroupMerge.GatherAppend | clc_ssh.py:169-173 | a key's gathered hosts over two runs of results are the two runs' hosts concatenated |
| GroupMerge.GatherSplit | clc_ssh.py:169-173 | removing one result removes exactly its hosts from the gathered hosts of each key |
| GroupMerge.DropOne | clc_ssh.py:169 | removing one element of a sequence removes one occurrence from its multiset |
| GroupMerge.GatherPermutation | clc_ssh.py:169 | reordering the results, as `sorted()` does, reorders a key's gathered hosts and nothing more: the same hosts, as many times each |
| GroupMerge.MergePermutation | clc_ssh.py:162-174 | any reordering of the results gives the same merged keys and the same hosts under each key, up to order |
| GroupMerge.MergeOne | clc_ssh.py:170-173 | the inner loop, in any key order, appends every group of one result |
| GroupMerge.HostLists | clc_ssh.py:183 | the comprehension lists each group's hosts as one container, in iteration order |
| GroupMerge.HostListsLeaves | clc_ssh.py:183 | every name in the listed host lists is a name in some group's hosts |
| GroupMerge.ServersFromGroups | clc_ssh.py:177-183 | every name inside a value of the server set comes from some group's host list |
| GroupMerge.ServersOfAtomGroups | clc_ssh.py:177-183 | for server-name host lists, a value is in the server set iff some group's hosts contain it, whatever the iteration order |
| Hostvars.HostvarsSingleServer | clc_ssh.py:132-159 | a record exists iff the fetch succeeded and the address list is present, non-empty and its first entry has an internal address; it is keyed by the server name, with that address and the full server data |
| Hostvars.NamedStep | clc_ssh.py:125-127 | a name is among the first i+1 results iff it is among the first i or the i-th result carries it |
| Hostvars.LastWith | clc_ssh.py:125-127 | every name carried by some result has a last result carrying it |
| Hostvars.FoldHostvars | clc_ssh.py:124-129 | the fold's keys are exactly the names of the successful results, and each maps to the last such record (last `update` wins) |
| Hostvars.Extracted | clc_ssh.py:120 | the map over the servers yields one result per server id |
| Hostvars.FindAllHostvarsForServers | clc_ssh.py:111-129 | the hostvars hold exactly the names of the servers whose record was extracted, each with the record of the last server carrying that name |
| Inventory.ToHostsFlat | clc_ssh.py:100-105 | lifted to host lists, a walked map keeps its keys; each host list is already flat, so the merge's flattening keeps it unchanged, and it holds exactly the member names, in order |
| Inventory.WalkAll | clc_ssh.py:43 | one walk result per selected datacenter |
| Inventory.NonEmptyResults | clc_ssh.py:46 | the kept results are all non-empty, and no more than the inputs |
| Inventory.WalkAllSnoc | clc_ssh.py:43 | walking one more datacenter appends its result |
| Inventory.Present | clc_ssh.py:46 | one map per result, with a missing result read as the empty map |
| Inventory.DropEmptyKeepsMerge | clc_ssh.py:45-47 | dropping the empty results does not change the merge |
| Inventory.PresentWalk | clc_ssh.py:43 | each datacenter's present result is its walked map |
| Inventory.GatherWalks | clc_ssh.py:43-47 | a key's gathered hosts are the concatenation of each datacenter's recorded hosts |
| Inventory.AllGroupsKeys | clc_ssh.py:37-47 | a key is in the inventory iff some group of some selected datacenter writes it |
| Inventory.Hosted | clc_ssh.py:99-105 | a datacenter has server names under a key exactly when its walk has the key |
| Inventory.DatacenterHosts | clc_ssh.py:43-47 | a key's hosts gathered across datacenters are server names only |
| Inventory.DatacenterHostsHas | clc_ssh.py:43-47 | a key one datacenter's walk has gets a non-empty host list |
| Inventory.PresentSnoc | clc_ssh.py:46 | one more walk result appends one map |
| Inventory.NonEmptySnoc | clc_ssh.py:46 | a result is kept exactly when it is a non-empty map |
| Inventory.KeptHosts | clc_ssh.py:42-47 | merging the kept results in datacenter order puts under each key that key's server names from every selected datacenter, and at least one |
| Inventory.AllGroups | clc_ssh.py:37-47 | in the inventory, every group has at least one host and every host is a server name |
| Inventory.AllGroupsHosts | clc_ssh.py:37-47 | merged in datacenter order, each inventory key's hosts are the in-order concatenation of every selected datacenter's hosts under that key |
| Inventory.SortedMerge | clc_ssh.py:37-47 | merged in any order of the kept results, the inventory has the same keys, and under each key the same server names as many times each; every group is non-empty and holds server names only |
| Inventory.FindAllGroups | clc_ssh.py:37-47 | the inventory is the merge of a reordering of the kept results; its keys are those of `AllGroups`, its host lists are those of `AllGroups` up to order, non-empty and made of server names |
| Inventory.ScenarioSingleGroup | clc_ssh.py:37-47 | one datacenter WA1 with a default group "webservers" of two servers gives the keys `webservers` and `WA1_webservers`, each with both servers |
| Inventory.SingleDatacenter | clc_ssh.py:37-47 | with no allow-list and one contributing datacenter, the inventory is the merge of that datacenter's map |
| Inventory.NonEmptyOne | clc_ssh.py:46 | a single non-empty result is kept |
| Inventory.ScenarioHosts | clc_ssh.py:100-105 | the scenario's walked map lifted to hosts holds scalar server names |
| Inventory.ScenarioWalk | clc_ssh.py:83-105 | the scenario's walk writes both keys with the two servers |

## Left out

- The `multiprocessing.Pool` used by `_find_all_hostvars_for_servers` is not modelled: `Pool.map` returns results in input order, so a sequential map over the server ids (`Hostvars.Extracted`) has the same result.
- The CLC SDK and HTTP calls (`Datacenters()`, `Groups()`, `Subgroups()`, `Servers()`, `API.Call`) are not modelled. Their answers are inputs: the group tree, `servers: None` for a group whose server list raises `CLCException`, and a `Fetch` per server id in which `FetchFailed` stands for an API exception or bad data.
- `Subgroups()` raising an exception is not modelled: the source does not catch it there, so the whole run would abort.
- `_set_clc_credentials` is not modelled: it reads `clc_alias`, which is never defined, and it only configures the SDK.
- `print_ssh_config`, `main`, the `print` output and JSON serialisation are I/O and are not modelled.
- The environment variable `CLC_FILTER_DATACENTERS` is not read: it is an `Option<string>` parameter.
- `Text.Upper`: upper-cases ASCII letters only, because Python's Unicode case mapping is not modelled.
- `GroupMerge.ParseGroupsResultToDict`: merges the results in the order given. Python 2's ordering of dictionaries, which `sorted()` applies, is not modelled. `Inventory.FindAllGroups` passes it an arbitrary reordering of the kept results instead.
- `Inventory.AllGroupsHosts`: states the host order of the merge in datacenter order, which is not the order `sorted()` produces. Two results of different sizes can merge in the other order, so a group's hosts can come out reversed relative to the datacenter order. For the order the program uses, the model promises only the same hosts, as many times each (`Inventory.SortedMerge`, `Inventory.FindAllGroups`).
- The key order of a Python dict is not modelled. `GroupMerge.MergeOne` picks keys in an arbitrary order, and `GroupMerge.ServersFromGroups` takes the iteration order as a parameter.
- Lists, dicts, tuples and files as iterables are all modelled as one `Nested` container of values. `_is_list_flat` treats all four alike. Iterating a dict or file yields its keys or lines, which is not modelled.
- `GroupMerge.ServersOfAtomGroups`: covers only host lists of server names. `set()` over leftover containers would raise `TypeError` in Python, and that path is not modelled.
- The server record always carries a name: the `server.name` attribute access is not a modelled failure.
- `Hostvars.HostvarsSingleServer`: a missing `details` or `ipAddresses` key, or a missing `internal` entry, are the `KeyError` paths, which return nothing. Other exception types are not modelled.
