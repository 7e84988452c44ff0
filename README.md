# Bulk device upgrade engine — a Dafny model

`bulkupgrade.py` schedules, or aborts, firmware upgrades across a fleet of
SD-WAN elements (devices), driven by a CSV manifest. Its engine has four parts:

- the **translation dictionaries** (`create_dicts`): fourteen module-level
  maps built from the controller's site, element and element-image
  inventories and from each element's interfaces;
- the **upgrade planner** (`upgrade_device`): resolves every manifest row's
  serial number, software version and interface names through those maps,
  reads the element's software state, and either reports an error, skips a
  device already on the target image, or puts the state back with six
  upgrade fields overwritten;
- **abort mode** (`abort_upgrades`): posts an `abort_upgrade` operation to
  every element whose serial number the dictionaries know;
- the **manifest header check** in `go`, and the unused `remove_bom` helper.

The model is in five modules:

- `Api` (`api.dfy`): JSON values, the software-state object, the requests,
  and the controller's answers.
- `Catalog` (`catalog.dfy`): the dictionaries.
- `Planner` (`planner.dfy`): upgrade mode.
- `Abort` (`abort.dfy`): abort mode.
- `Manifest` (`manifest.dfy`): the header check, the comma split of the
  interfaces cell, and the byte-order mark.

The source is imperative, and the model keeps that form:

- The dictionaries are the map fields of the class `Catalog.Catalog`.
- `CreateDicts` fills them with the same nested loops as the source.
- `UpgradeDevice` is a row loop. For a row that reaches the put, it
  overwrites six fields of the fetched software state and puts the result.
- `AbortUpgrades` is a row loop over the serial numbers. It fetches no
  state: it posts the fixed abort operation to each known element.

Each method is proved equal to a specification function:

| method | specification function |
|---|---|
| `CreateDicts` | `Build` |
| `UpgradeDevice` | `RunUpgrade` over `PlanRow` |
| `AbortUpgrades` | `RunAbort` over `AbortRow` |

The specification functions carry no contract of their own. The lemmas
named beside them state what they mean:

| specification function | source | its properties |
|---|---|---|
| `Catalog.Index` | bulkupgrade.py:84-86, 95-102, 122-128 | `IndexKeys`, `IndexFind`, `IndexLastWins`, `IndexDistinct`, `IndexRoundTrip` |
| `Catalog.CountAssigned` | bulkupgrade.py:104-105 | `CountAssignedSnoc`, `IntfQueries` |
| `Catalog.IntfIndex` | bulkupgrade.py:104-112 | `IntfIndexKeys`, `IntfIndexValue`, `ElementKeys`, `UnassignedHasNoKeys` |
| `Catalog.Released`, `Catalog.Unsupported` | bulkupgrade.py:122-128 | `BucketsMembers`, `BucketsPartition` |
| `Catalog.Build` | bulkupgrade.py:78-134 | `BuildWellFormed`, `BuildElementLookups`, `BuildElementRoundTrip`, `BuildSiteRoundTrip`, `BuildImageBuckets`, `BuildImageValue`, `BuildImageRoundTrip`, `BuildInterfacesAssigned`, `BuildInterfaceValue` |
| `Planner.ResolveNames` | bulkupgrade.py:184-191 | `ResolveNamesSpec`, `FoundMissingCover`, `FoundAll`, `FoundNone` |
| `Planner.InterfaceIds` | bulkupgrade.py:175-195 | `InterfaceIdsSpec`, `InterfaceIdsResolved`, `UnassignedIgnoresInterfaces`, `InterfaceMsgs` |
| `Planner.PlanRow` | bulkupgrade.py:164-241 | `PlanRowRejected`, `PlanRowReleasedFirst`, `PlanRowPut`, `PlanRowPutLine`, `PlanRowFetchFailed`, `PlanRowAlreadyCurrent` |
| `Planner.RunUpgrade` | bulkupgrade.py:162-244 | `RunUpgradeSplit`, `RunUpgradePuts`, `RunUpgradeIdempotent`, `NoPosts`, `RunUpgradeUnknownDevices` |
| `Abort.AbortRow`, `Abort.RunAbort` | bulkupgrade.py:141-159 | `RunAbortPosts`, `RunAbortUnknown`, `AbortRowReport`, `RunAbortNoPut` |
| `Manifest.HeaderAccepted` | bulkupgrade.py:325-332 | `UpgradeHeaderExact`, `HeaderOrderIrrelevant`, `UpgradeHeaderServesAbort`, `UpgradeHeaderItself` |

The properties the script relies on are lemmas about those functions. Each
run produces two things:

- a **log**: the printed lines, as a `Msg` or `AbortMsg` value with its
  INFO, WARN, ERR or untagged severity;
- a **call list**: the requests sent to the controller, in order.

The model takes the controller's answers as inputs:

- The three inventory fetches are `Option<seq<record>>`, with None for a
  failed request.
- The interface fetch is a function of (site id, element id).
- The per-row software-state read is a function of the row position and
  the element id.
- Whether a put or a post is accepted is a function of the row position,
  the element id and the request body.

Two behaviours of the code are easy to miss, and the model keeps both:

- **A failed inventory fetch does not halt the build.** The code prints one
  error, leaves that family of dictionaries as it was, and goes on to the
  next fetch (`bulkupgrade.py:87-89`, `114-116`, `130-132`). `CreateDicts`
  does the same, and the planner then simply finds no entries.
- **Abort mode passes over an unknown serial number without any line.** The
  test at `bulkupgrade.py:144` has no else branch. The lemma
  `Abort.RunAbortUnknown` states that such rows print nothing and send
  nothing.

## Model

| member | source | states |
|---|---|---|
| Catalog.IndexKeys | bulkupgrade.py:84-86 | A key is in the dictionary exactly when some record carries it |
| Catalog.IndexFind | bulkupgrade.py:95-102 | Every key maps to the value of the last record that carries the key; no later record carries it |
| Catalog.IndexLastWins | bulkupgrade.py:95-102 | A record whose key no later record repeats is what the key maps to (last record wins) |
| Catalog.IndexDistinct | bulkupgrade.py:95-102 | With distinct keys, every record is found under its own key |
| Catalog.IndexRoundTrip | bulkupgrade.py:97-100 | When the a-keys are distinct, b → a → b is the identity on every known b-key |
| Catalog.IntfQueries | bulkupgrade.py:104-107 | Interface queries go exactly to the elements outside the unassigned site ("1" or 1), one per such element |
| Catalog.BucketsMembers | bulkupgrade.py:122-128 | The released bucket holds exactly the images in state "release"; the unsupported bucket holds exactly the others |
| Catalog.BucketsPartition | bulkupgrade.py:122-128 | Each image lands in exactly one bucket: the multisets of the two buckets add up to the image list |
| Catalog.BuildWellFormed | bulkupgrade.py:100-102 | After the build, every element id a serial number resolves to has a recorded site, so the planner's lookup cannot fail |
| Catalog.OverrideWellFormed | bulkupgrade.py:95-102 | Loading further inventories into well-formed dictionaries keeps them well formed |
| Catalog.FreshBuildWellFormed | bulkupgrade.py:62-75 | The empty module-level dictionaries, filled by one build, are well formed whatever the fetches returned |
| Catalog.BuildElementLookups | bulkupgrade.py:96-102 | For an element no later record overrides, `elem_hwid_id[hw_id]` is its id and `hwid_sid[hw_id]` its site; for one whose id is not repeated, `elemid_sid`, `elem_id_name` and `elem_id_hwid` give its site, name and hw_id |
| Catalog.BuildElementRoundTrip | bulkupgrade.py:97-100 | With distinct element ids, hw_id → id → hw_id and name → id → name are identities |
| Catalog.BuildSiteRoundTrip | bulkupgrade.py:84-86 | With distinct site ids, name → id → name is the identity |
| Catalog.BuildImageBuckets | bulkupgrade.py:122-128 | A version is in `image_name_id` exactly when some "release" image has it, and in `unsupported_name_id` exactly when some other image has it |
| Catalog.ReleasedValue | bulkupgrade.py:122-125 | A version in the released index maps to the id of a "release" image of that version, and no later released image has it |
| Catalog.BuildImageValue | bulkupgrade.py:122-125 | `image_name_id[v]` is the id of the last "release" image whose version is v |
| Catalog.BuildImageRoundTrip | bulkupgrade.py:124-125 | With distinct ids among the released images, version → id → version is the identity |
| Catalog.ElementKeys | bulkupgrade.py:110-112 | The interface keys one element contributes are (its site, its id, an interface name or id) of a fetched interface |
| Catalog.IntfIndexKeys | bulkupgrade.py:104-112 | An interface key is in the dictionary exactly when it is scoped to some element and one of that element's fetched interfaces |
| Catalog.IntfIndexValue | bulkupgrade.py:110-112 | Every interface key maps to the id (or the name) of an interface fetched for an element, and the key is that element's site, its id and the interface's name (or id) |
| Catalog.BuildInterfaceValue | bulkupgrade.py:104-112 | `intf_name_id[(s, e, n)]` is the id of an interface named n fetched for an element with site s and id e |
| Catalog.UnassignedHasNoKeys | bulkupgrade.py:104-105 | A key contributed by an element carries that element's site and id, and the site is never the unassigned one |
| Catalog.BuildInterfacesAssigned | bulkupgrade.py:104-112 | No key of `intf_name_id` or `intf_id_name` has the unassigned site |
| Catalog.Catalog.constructor | bulkupgrade.py:62-75 | The dictionaries start empty |
| Catalog.Catalog.CreateDicts | bulkupgrade.py:78-134 | The new dictionaries are the old ones with the build's entries assigned over them; one error per failed fetch; the requests are sites, elements, one interface query per assigned element, then images |
| Catalog.Catalog.SitesSection | bulkupgrade.py:81-89 | The site dictionaries gain the fetched sites, or stay as they were with one error when the fetch fails |
| Catalog.Catalog.ElementsSection | bulkupgrade.py:92-116 | The element and interface dictionaries gain the fetched elements and their interfaces, or stay as they were with one error |
| Catalog.Catalog.ImagesSection | bulkupgrade.py:119-132 | The image dictionaries gain the released and the unsupported images, or stay as they were with one error |
| Catalog.Catalog.LoadSites | bulkupgrade.py:84-86 | The site loop assigns id → name and name → id for each site in order |
| Catalog.Catalog.LoadElements | bulkupgrade.py:95-112 | The element loop assigns the six element dictionaries and, for an assigned element, queries and loads its interfaces |
| Catalog.Catalog.AddElement | bulkupgrade.py:96-102 | One element's six assignments extend each dictionary by that element |
| Catalog.Catalog.AddInterfaces | bulkupgrade.py:104-112 | One element's interface step extends both interface dictionaries by that element's entries, and queries once exactly when the element is assigned |
| Catalog.Catalog.QueryInterfaces | bulkupgrade.py:104-112 | An unassigned element sends nothing and changes nothing; an assigned one sends one interface query and assigns its fetched interfaces |
| Catalog.Catalog.LoadInterfaces | bulkupgrade.py:110-112 | The interface loop assigns the site- and element-scoped id → name and name → id entries |
| Catalog.Catalog.LoadImages | bulkupgrade.py:122-128 | The image loop sends each image to the released or the unsupported dictionaries by its state |
| Catalog.Catalog.AddImage | bulkupgrade.py:123-128 | One image goes into the released pair of dictionaries when its state is "release", and into the unsupported pair otherwise; the other pair is unchanged |
| Planner.Found | bulkupgrade.py:184-187 | Every name it keeps is known on the row's (site, element) |
| Planner.FoundExact | bulkupgrade.py:184-187 | Exactly the manifest names known on the row's (site, element): every kept name is such a name, and every such name is kept |
| Planner.Missing | bulkupgrade.py:189-191 | Every name it keeps is unknown there |
| Planner.MissingExact | bulkupgrade.py:189-191 | Exactly the manifest names not known there: every kept name is such a name, and every such name is kept |
| Planner.ResolveNamesSpec | bulkupgrade.py:184-191 | The interface loop's ids are the ids of the known names in manifest order; its errors name each unknown name once, in order |
| Planner.FoundMissingCover | bulkupgrade.py:184-191 | Every name is either resolved or reported |
| Planner.FoundAll | bulkupgrade.py:184-187 | When every name is known, all are resolved, in order |
| Planner.FoundNone | bulkupgrade.py:189-191 | When no name is known, none is resolved |
| Planner.InterfaceIdsSpec | bulkupgrade.py:175-195 | No interfaces cell means None silently. An unassigned device means None, after echoing the cell and a WARN. Otherwise the cell is echoed, the ids of the known comma-separated names follow in order, each unknown name gets an ERR, and an empty result becomes None |
| Planner.InterfaceIdsResolved | bulkupgrade.py:183-195 | For a device with a site: the cell is echoed, the known names' ids follow in order, each unknown name gets one ERR, and no known name means None |
| Planner.UnassignedIgnoresInterfaces | bulkupgrade.py:180-182 | An unassigned device never gets an interface list, and the WARN appears exactly when interfaces were given |
| Planner.InterfaceMsgs | bulkupgrade.py:175-195 | The interface step prints only the echo, the WARN and "interface not found" lines |
| Planner.Payload | bulkupgrade.py:213-218 | The put body is the fetched state, with image_id, scheduled_download, scheduled_upgrade, interface_ids, download_interval and upgrade_interval set from the row; every other key is unchanged and no key is dropped |
| Planner.PlanRowRejected | bulkupgrade.py:164-241 | A row sends no request exactly when its serial is unknown or its version is not released. It then prints exactly one ERR naming row i+1: device not found, image no longer supported, or invalid image |
| Planner.PlanRowReleasedFirst | bulkupgrade.py:169-171 | A version found among the released images is never reported unsupported or invalid, its row starts with the state fetch, and any put targets the released image's id |
| Planner.PlanRowPut | bulkupgrade.py:205-220 | A row puts exactly when the state fetch succeeded and the current image_id differs from the target. Its requests are then the fetch followed by one put of the payload |
| Planner.PlanRowPutLine | bulkupgrade.py:205-226 | A row that reaches the put prints its interface lines, then "upgrade scheduled" when the put is accepted and an ERR otherwise; it sends the fetch and the put of the payload |
| Planner.PlanRowFetchFailed | bulkupgrade.py:205-230 | When the state fetch fails, the fetch is the only request and the row's lines end with "could not retrieve software status" |
| Planner.PlanRowAlreadyCurrent | bulkupgrade.py:205-210 | A device already on the target image gets only the state fetch and an INFO "already at" line |
| Planner.RunUpgradeSplit | bulkupgrade.py:162-241 | Continue on error: the later rows run exactly as they would on their own, whatever the earlier rows did |
| Planner.RunUpgradePuts | bulkupgrade.py:162-241 | The run sends exactly one put per row that needs one |
| Planner.RunUpgradeIdempotent | bulkupgrade.py:207-209 | When no row needs a put (for example every device is already current), the run sends no state-changing request |
| Planner.NoPosts | bulkupgrade.py:162-241 | Upgrade mode never posts an operation |
| Planner.RunUpgradeUnknownDevices | bulkupgrade.py:239-241 | A manifest of unknown serials sends nothing and prints one "device not found" per row, each naming its own row |
| Planner.UpgradeDevice | bulkupgrade.py:162-244 | The row loop prints and sends exactly what the planned run does |
| Planner.UpgradeOne | bulkupgrade.py:163-241 | One pass of the loop body, overwriting the fetched state in place, equals the planned row |
| Planner.InterfaceList | bulkupgrade.py:175-195 | The interface loop builds exactly the planned interface list and lines |
| Abort.KnownSerials | bulkupgrade.py:142-144 | Every serial number it keeps occurs in the manifest and is known to the dictionaries |
| Abort.KnownSerialsComplete | bulkupgrade.py:143-144 | Every serial number of the manifest that the dictionaries know is kept |
| Abort.RunAbortPosts | bulkupgrade.py:141-157 | Abort mode posts `{"action": "abort_upgrade", "parameters": None}` once to the element of each known serial, in manifest order, and prints one line per post naming that serial |
| Abort.RunAbortUnknown | bulkupgrade.py:143-144 | Unknown serial numbers cause no request and no line |
| Abort.AbortRowReport | bulkupgrade.py:152-156 | A known serial's line is untagged ("Upgrade aborted") exactly when the post was accepted, and ERR otherwise |
| Abort.RunAbortNoPut | bulkupgrade.py:141-157 | Abort mode sends only abort posts; it never changes a software state |
| Abort.AbortUpgrades | bulkupgrade.py:141-159 | The row loop prints and sends exactly what the planned abort run does |
| Abort.AbortOne | bulkupgrade.py:142-157 | One pass of the loop body equals the planned row |
| Manifest.UpgradeHeaderExact | bulkupgrade.py:330-332 | Upgrade mode accepts exactly the headers whose columns are all expected columns and that include every expected column |
| Manifest.HeaderOrderIrrelevant | bulkupgrade.py:325-332 | The verdict in either mode depends only on which columns occur, not on their order or repetition |
| Manifest.UpgradeHeaderServesAbort | bulkupgrade.py:325-332 | A header accepted for upgrade is accepted for abort |
| Manifest.UpgradeHeaderItself | bulkupgrade.py:30 | The expected header is accepted; the same header without its last column is rejected |
| Manifest.Split | bulkupgrade.py:179 | Python's `str.split(",")`: at least one piece, no piece holds a comma, empty pieces kept, nothing trimmed |
| Manifest.JoinSplit | bulkupgrade.py:179 | Splitting loses nothing: joining the pieces with commas gives the cell back |
| Manifest.SplitJoin | bulkupgrade.py:179 | Comma-free pieces are recovered by splitting their join |
| Manifest.RemoveBom | bulkupgrade.py:137-138 | A line starting with the UTF-8 byte-order mark loses exactly those three bytes; any other line is unchanged |
| Manifest.RemoveBomOnce | bulkupgrade.py:137-138 | Only one mark is removed: a doubled mark leaves one behind |

## Left out

- The CloudGenix SDK, its response objects and `jd_detailed`. The
  controller's answers are inputs, and the requests become a `Call` list.
  The error details `jd_detailed` prints are not modelled.
- Argument parsing, logging setup, the banner, login and token selection,
  the tenant timestamp and name, and logout. These are session plumbing,
  and their results never reach the engine.
- The orchestration in `go` that runs the header check, then the build,
  then one of the two modes, is not modelled as a member. A rejected
  header ends the process, which is I/O. Each step is modelled on its own.
- The file-existence check and the pandas CSV reading. Rows arrive already
  parsed, with blank cells as None or Null.
  - The model does not capture pandas turning numeric cells into numbers
    and NaN, nor its renaming of duplicate column names before the header
    check. `Manifest.HeaderAccepted` takes the column names as given.
- Row numbers are the 0-based row position, which is what the DataFrame
  index is after a default `read_csv`.
- Timestamps and intervals are opaque JSON values passed through
  unchanged. Floating-point values are not modelled.
- A controller reply without an "items" key, or a software state without
  "image_id", would make the script crash. The model does not capture
  these crashes:
  - inventory lists are always lists;
  - `SoftwareState` always has "image_id".
- Site ids are JSON values, so both spellings of the unassigned site ("1"
  and 1) are modelled. Element, interface and image ids are strings.
- The progress lines of the build ("Creating Translation Dicts..",
  "\tSites" and so on) and the mode banners are not part of the log.
- `CSVHEADER_ABORT` is defined but unused by the source, so it has no
  counterpart.
- The order in which an interface fetch happens relative to the element
  assignments is not observable. The model gives the interface query
  order and the resulting dictionaries, but not the interleaving.
- The interface oracle is a function of (site id, element id). An element
  record that occurs twice in the inventory therefore gets the same
  interface answer both times, whereas the code asks the controller afresh
  for each record (`bulkupgrade.py:107`).
- Planner.Found, Planner.Missing, Abort.KnownSerials: together with
  `FoundExact`, `MissingExact` and `KnownSerialsComplete` the contracts
  state which names or serials are in the result, in both directions, but
  not that the result keeps manifest order. Order is kept by their
  definitions and is stated where it matters: `FoundAll` gives the order
  when every name is known, `ResolveNamesSpec` ties the loop to `Found` and
  `Missing` index by index, and `RunAbortPosts` ties the posts to
  `KnownSerials` index by index.
