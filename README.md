# PiggyCrates crate tile, modelled in Dafny

PiggyCrates is a plugin for a block-game server. Operators place *crate* blocks, and players
open them with *keys* to get randomized rewards: items, console commands, or both. Each
placed crate is a `CrateTile`. This project models that tile as a Dafny class. The class holds
the tile's own state:

- the crate name and the crate definition;
- the open flag;
- the player who opened it;
- the map of floating-text viewers.

Its methods make the guarded, step-by-step transitions of the PHP class, and they are proved
against specification functions. The host engine appears only through the effects it records,
in `Host.Server.log`:

- block events broadcast to viewers;
- tips sent to a player;
- commands dispatched as the console;
- the scheduled roulette task.

Modules:

- `Wrappers`: `Option` (PHP's nullable values) and `Result` (a value or a thrown error).
- `Text`: `str_replace` for one search string (`Replace`). It has lemmas for the absent
  placeholder, for the substitution of each placeholder in turn and for the resulting length.
- `Crates`: crate definitions and drops, the catalog lookup, and the items and commands a list
  of draws grants. Also the stable descending sort by chance (`SortDesc`), the total chance and
  the preview menu size.
- `Nbt`: string tags of a compound tag (`getString`/`setString`).
- `Host`: the server log, player inventories, players, worlds and floating-text particles.
- `Tiles`: the opening guards (`OpenGuard`), command dispatch, the custom name and the
  `CrateTile` class.

Environment inputs of the model:

- The drops that the weighted sampler `Crate::getDrop` returns are the `draws` argument of
  `OpenCrate`.
- The configured `crates.mode` is the `mode` argument.
- The crate catalog is a `map` from crate name to crate. It is well formed: every crate is
  stored under its own name.
- Whether a viewer is still there is read from `Player.online` and `Player.world`. The
  players of the tile's world are `World.players`.

The model follows the code as written, including:

- Opening checks "no crate type" first. That guard returns silently.
- The key is never validated here. Removing it simply takes one unit if the player has one.
- Every mode other than `"instant"` starts the roulette, unknown values included.
- In instant mode the crate is closed *before* the rewards are handed out.
- A stored crate name that is not in the catalog silently leaves the crate type null.
- The preview shows at most 54 drops.

## Model

| member | source | states |
|---|---|---|
| `Tiles.CrateTile.constructor` | src/DaPigGuy/PiggyCrates/tiles/CrateTile.php:23-34 | A new tile is closed, has no opener, no crate name or type and no tracked viewers. |
| `Tiles.CrateTile.GetCrateType` | src/DaPigGuy/PiggyCrates/tiles/CrateTile.php:36-39 | The crate type, when set, carries the tile's crate name. |
| `Tiles.CrateTile.SetCrateType` | src/DaPigGuy/PiggyCrates/tiles/CrateTile.php:41-45 | The name and type are both set from the crate; nothing else changes. |
| `Tiles.OpenGuard` | src/DaPigGuy/PiggyCrates/tiles/CrateTile.php:49-57 | The guards, in order: no crate type, already open, then not enough room. The room guard stops the opening exactly when the free slots (size minus occupied) are fewer than the drop count. Otherwise the opening proceeds. |
| `Tiles.CrateTile.OpenCrate` | src/DaPigGuy/PiggyCrates/tiles/CrateTile.php:47-84 | When no crate type is set, nothing changes. When a guard fails, only the matching tip is logged: no key is taken and the state and inventory are unchanged. When all guards pass, one key unit is removed and the open block event (1,1) is logged. In "instant" mode the crate then ends closed with no opener, the log shows open (1,1) then close (1,0), the item-kind draws are added, and the per-draw commands and then the crate's commands are dispatched with the name in place. In any other mode the crate stays open with the opener set, and exactly one roulette task with period 1 is scheduled. |
| `Tiles.CrateTile.CloseCrate` | src/DaPigGuy/PiggyCrates/tiles/CrateTile.php:86-94 | Afterwards the crate is closed with no opener. Exactly one close event (1,0) is logged when it was open, none when it was already closed. |
| `Tiles.GrantDraws` | src/DaPigGuy/PiggyCrates/tiles/CrateTile.php:69-74 | The inventory receives exactly `ItemGrants(draws)`, and the log gains exactly `Dispatches(DrawCommands(draws))`. In this model's abstract inventory, the key count and the occupied-slot count are untouched (see "Inventory details" below). |
| `Tiles.GrantDraw` | src/DaPigGuy/PiggyCrates/tiles/CrateTile.php:70-73 | One draw adds its item exactly when its kind is "item", then dispatches its commands in order. |
| `Tiles.DispatchAll` | src/DaPigGuy/PiggyCrates/tiles/CrateTile.php:75-77 | The log gains one console command per entry, in order, with the placeholder replaced. |
| `Tiles.DispatchesAt` | src/DaPigGuy/PiggyCrates/tiles/CrateTile.php:71-77 | Each command is dispatched once, at its own position, as `str_replace("{PLAYER}", name, command)`. |
| `Tiles.DispatchesAppend` | src/DaPigGuy/PiggyCrates/tiles/CrateTile.php:69-77 | Dispatching the per-draw commands and then the crate commands is dispatching their concatenation. |
| `Tiles.DispatchVerbatim` | src/DaPigGuy/PiggyCrates/tiles/CrateTile.php:72 | A command without the placeholder is dispatched unchanged. |
| `Text.ReplaceAbsent` | src/DaPigGuy/PiggyCrates/tiles/CrateTile.php:76 | `str_replace` leaves a subject without the search string unchanged, and counts no occurrence. |
| `Text.ReplaceNext` | src/DaPigGuy/PiggyCrates/tiles/CrateTile.php:72 | When no occurrence of the search string starts before a given occurrence, that occurrence is replaced and the scan goes on after it. This holds for any search string whose first character does not recur in it. |
| `Tiles.PlaceholderSubstituted` | src/DaPigGuy/PiggyCrates/tiles/CrateTile.php:72 | In a command `u + "{PLAYER}" + v` where `u` holds no placeholder, the dispatched text is `u`, then the player's name, then `v` with its own placeholders substituted. |
| `Text.ReplaceLength` | src/DaPigGuy/PiggyCrates/tiles/CrateTile.php:72 | The result's length is the subject's plus, for each replaced occurrence, the replacement's length minus the placeholder's. |
| `Text.ReplaceWhole` | src/DaPigGuy/PiggyCrates/tiles/CrateTile.php:72 | A command that is exactly the placeholder becomes exactly the player's name. |
| `Crates.ItemGrantsShape` | src/DaPigGuy/PiggyCrates/tiles/CrateTile.php:70 | At most one item per draw. When every draw is of kind "item", each draw's item is granted in order. When none is, nothing is granted. Every granted item comes from an item-kind draw. |
| `Crates.ItemGrantsAt` | src/DaPigGuy/PiggyCrates/tiles/CrateTile.php:69-70 | For any list of draws, mixed or not, the item of each item-kind draw i is granted, right after the items of draws 0..i-1. |
| `Crates.ItemGrantsAppend` | src/DaPigGuy/PiggyCrates/tiles/CrateTile.php:69-70 | The items granted for two draw lists in a row are the concatenation of their items. |
| `Crates.DrawCommandsAt` | src/DaPigGuy/PiggyCrates/tiles/CrateTile.php:69-74 | Command j of draw i sits right after the commands of draws 0..i-1 and the first j commands of draw i. |
| `Crates.DrawCommandsAppend` | src/DaPigGuy/PiggyCrates/tiles/CrateTile.php:69-74 | The commands of two draw lists in a row are the concatenation of their commands. |
| `Tiles.SortByChance` | src/DaPigGuy/PiggyCrates/tiles/CrateTile.php:100-105 | The array is sorted in place into `SortDesc` of its old contents: the stable order by descending chance. |
| `Tiles.InsertNext` | src/DaPigGuy/PiggyCrates/tiles/CrateTile.php:101-105 | One insertion step places the next drop after every drop of at least its chance. The rest of the array is untouched. |
| `Tiles.ShiftGreater` | src/DaPigGuy/PiggyCrates/tiles/CrateTile.php:101-105 | The gap j is found by scanning the prefix `a[..i]` back from i. Every drop in `a[j..i]` has a smaller chance than the one being placed and moves one slot right; the rest of the array is unchanged. The drop just before the gap has a chance at least as large. When the prefix is sorted in descending order, every drop before the gap has a chance at least as large. |
| `Crates.SortDescCorrect` | src/DaPigGuy/PiggyCrates/tiles/CrateTile.php:100-108 | The preview order is descending by chance, a permutation of the drops (same multiset), and keeps the total chance. |
| `Tiles.SumChances` | src/DaPigGuy/PiggyCrates/tiles/CrateTile.php:107-108 | The loop's total is the sum of the chances. |
| `Crates.MenuSize` | src/DaPigGuy/PiggyCrates/tiles/CrateTile.php:110 | Up to 27 drops use a 27-slot chest and more use the 54-slot double chest. Up to 54 drops always fit. Above 54 drops the menu holds exactly 54. |
| `Tiles.FillPreview` | src/DaPigGuy/PiggyCrates/tiles/CrateTile.php:110-122 | Slot k holds the k-th sorted drop for k below both the drop count and 54; every other slot is empty. When a drop must be shown and the total chance is zero, no menu is produced. |
| `Tiles.CrateTile.PreviewCrate` | src/DaPigGuy/PiggyCrates/tiles/CrateTile.php:96-124 | With no crate type there is no menu. Otherwise the total is the drops' total chance, and the menu shows the first 54 drops of `SortDesc(drops)`. The menu is missing exactly when there are drops and the total is zero. |
| `Tiles.CrateTile.IsOpen` | src/DaPigGuy/PiggyCrates/tiles/CrateTile.php:135-138 | The crate is open exactly when it has a current player. |
| `Tiles.CrateTile.GetCurrentPlayer` | src/DaPigGuy/PiggyCrates/tiles/CrateTile.php:140-143 | A current player exists exactly when the crate is open. |
| `Tiles.CustomName` | src/DaPigGuy/PiggyCrates/tiles/CrateTile.php:149 | The name ends in " Crate". What comes before is the crate's name, or "Unknown" without a crate type. |
| `Tiles.CrateTile.AddAdditionalSpawnData` | src/DaPigGuy/PiggyCrates/tiles/CrateTile.php:145-150 | The spawn data gets id "Chest" and the custom name; no other tag changes. |
| `Tiles.CrateTile.OnUpdate` | src/DaPigGuy/PiggyCrates/tiles/CrateTile.php:152-173 | The map changes only while the tile is live with a crate type and non-empty text. When it changes: entries of viewers still online in the world are kept unreplaced, every player of the world is tracked, and each other entry is a fresh particle with the crate's text for a player of the world. With a consistent host, the result is in step: every entry present and every player tracked. A map already in step is left unchanged (idempotence). The result is "not closed". |
| `Tiles.CrateTile.DropDeparted` | src/DaPigGuy/PiggyCrates/tiles/CrateTile.php:156-164 | The remaining entries are exactly the old entries whose player is online and in the tile's world, with their values unchanged. |
| `Tiles.CrateTile.AddArrivals` | src/DaPigGuy/PiggyCrates/tiles/CrateTile.php:165-170 | Old entries are kept, and every player of the world gets an entry under their name. New entries hold fresh particles with the text. When every player is already tracked, nothing changes. |
| `Nbt.StringAt` | src/DaPigGuy/PiggyCrates/tiles/CrateTile.php:178 | `getString` yields the stored string exactly when a string tag is stored under the name. Otherwise it fails with "no such tag" or "unexpected tag type". |
| `Crates.GetCrate` | src/DaPigGuy/PiggyCrates/tiles/CrateTile.php:179 | The lookup finds a crate exactly when the name is in the catalog, and that crate has the name. |
| `Tiles.CrateTile.ReadSaveData` | src/DaPigGuy/PiggyCrates/tiles/CrateTile.php:175-180 | It succeeds exactly when a string is stored under "CrateType". Then the name is that string and the type is its catalog lookup, null when the name is unknown. On failure nothing changes. |
| `Nbt.WithString` | src/DaPigGuy/PiggyCrates/tiles/CrateTile.php:185 | After `setString`, `getString` gives back the value stored, and every other tag is unchanged. |
| `Tiles.CrateTile.WriteSaveData` | src/DaPigGuy/PiggyCrates/tiles/CrateTile.php:182-186 | The crate name is stored under "CrateType". A tile whose name was never set stores nothing, because the PHP call then fails on null. |
| `Tiles.SaveLoadRoundTrip` | src/DaPigGuy/PiggyCrates/tiles/CrateTile.php:175-186 | Saving a tile whose crate was set and loading the data into a new tile gives back the name. The type is the same catalog crate when the name is in the catalog, and null otherwise. |
| `Host.Inventory.RemoveKey` | src/DaPigGuy/PiggyCrates/tiles/CrateTile.php:59 | One key unit is taken when there is one. In this model's abstract inventory, nothing else changes (see "Inventory details" below). |
| `Host.Inventory.AddItem` | src/DaPigGuy/PiggyCrates/tiles/CrateTile.php:70 | The item is appended to what the inventory has received. In this model's abstract inventory, the key and occupied-slot counts stay as they were. |

## Left out

- Weighted drop selection (`Crate::getDrop`) and the roulette animation (`RouletteTask`):
  their files are not part of this model. The draws are an input to `OpenCrate`. The
  roulette hand-off is the `ScheduleRoulette` effect.
- Packets and rendering: `BlockEventPacket` is the `BlockEvent` effect, which names the tile
  rather than its position. Floating-text particles are not drawn or hidden; `OnUpdate` models
  only the viewer map. The particle hiding in `close()` (CrateTile.php:126-133) is left out,
  and so is the rest of the host's tile closing. `closed` is a field that the host sets.
- The order of the viewer map: PHP arrays are ordered and Dafny maps are not. Only rendering
  depends on that order.
- Preview item decoration: custom names, lore and the percentage `round(chance / total * 100,
  2)`, which is floating-point arithmetic. Also the menu's read-only flag, title and sending.
  Only the order, the 54-drop cap, the menu size and the division by a zero total are kept.
- Chances are Dafny `real`s, exact and unbounded. In PHP they are ints or floats, and the total
  (CrateTile.php:107-108) is a float sum taken in sorted order. Rounding, NaN and INF are not
  modelled, so the zero-total test matches PHP's only for finite, non-negative chances.
- `Tiles.SortByChance`: stability (equal chances keep their order) holds because the
  specification `SortDesc` is an insertion that places new drops after equal ones. It is not
  stated as a lemma of its own.
- Inventory details: the inventory is abstract (size, occupied slots, key units, received
  items). `removeItem` and `addItem` do not change the occupied-slot count in this model. In
  the engine, `count(getContents())` drops when the last unit of the key stack is removed and
  rises when `addItem` fills an empty slot; the model does not track that.
  Stacking and overflow when the inventory fills up are not modelled. A drop that is itself a
  key does not change the key count.
- `Tiles.GrantDraws`: the relative order of item grants and command dispatches inside one
  draw is not recorded. The items go to the inventory and the commands to the server log.
- `Tiles.CrateTile.AddArrivals`: says a new entry belongs to some player of the world with
  that name. It does not say that this is the first such player in the world's order (the
  engine keeps player names unique).
- Message localisation: tips are symbolic messages. Console-sender mechanics: a dispatched
  command is a logged string.
- PHP's loose comparison in `switch` for non-string config values: the mode is a string.
- NBT tags other than strings are all represented by one non-string tag kind. The parent
  chest's own save and spawn data are not modelled.
- `commands/KeyCommand.php`: command-framework glue (player lookup, argument checks, catalog
  lookup, giving keys) with no crate-state logic.
