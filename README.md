# Dungeon generation and a growable array, modelled in Dafny

This project models two parts of the Dungeon-Generation-Algorithm repository.

**The dungeon generator of main.c.** A 32×32 grid `map` of TILE records is built by
`map_generate` in phases:

1. The grid is reset.
2. Rooms grow from the START tile at the centre, driven by a queue.
3. End rooms are found, then the boss, shop and item rooms are placed.
4. Secret chances are counted.
5. Secret rooms are chosen and wired, then the super secret room.

A failed phase makes `map_generate` start over.

The model keeps the source's form. The global state becomes the class `Dungeon.Generator`:
- the grid is a `const tiles: array2<Tile>`;
- the lists are `seq<Pos>` fields;
- the tile pointers are `Option<Pos>` fields;
- every phase is a method that updates them in place.

Each method's contract ties the new state to a specification function of the old state (module
`DungeonSpec`) or states the phase's promise outright. The read-only grid tests live in `Grid`.
The tile record and directions live in `Tiles`. `map_add_tile_to_list` lives in `Lists`.

**The growable array of dynamic_array.h / dynamic_array.c.** This is the class
`DynamicArray.Array<T>`:
- it is modelled over a Dafny `array<T>` with its `size` and `capacity` fields;
- operations change the buffer in place, with the source's shifting loops;
- capacity doubling and halving are included.

## Model

| member | source | states |
|---|---|---|
| Tiles.Mirror | main.c:1071-1113 | the door a new room gets back is in the opposite direction: never the same direction, and stepping there returns to the parent tile |
| Tiles.MirrorInjective | main.c:1071-1113 | different directions have different mirrored doors |
| Tiles.AdjacentIffStep | main.c:360-392 | two tiles are adjacent exactly when one is the up, right, bottom or left neighbour of the other |
| Tiles.StepInjective | main.c:1071-1113 | the four neighbours of a tile are four different tiles |
| Tiles.WithDoor | main.c:1075-1079 | opening a door sets that flag and adds one to `doors`, and leaves every other flag and field as it was |
| Tiles.WithSecretDoor | main.c:829-833 | opening a secret door sets that secret flag and adds one to `secret_doors`, and leaves the normal doors and every other field as they were |
| Tiles.OpenDoorKeepsCount | main.c:1071-1113 | opening a door that was closed keeps `doors` equal to the number of door flags set |
| Tiles.OpenSecretDoorKeepsCount | main.c:829-833 | opening a closed secret door keeps `secret_doors` equal to the number of secret flags set |
| Tiles.ReopenedDoorIsCountedTwice | main.c:987-1031 | re-opening a door that is already open leaves `doors` one above the number of flags set |
| Lists.AddTileToList | main.c:258-280 | the tile is appended only when absent, so the list grows by one or stays unchanged, keeps its prefix, contains the tile afterwards and never gains a repeat |
| Grid.CountBorderingRooms | main.c:360-392 | the number of bordering rooms is between 0 and 4 |
| Grid.BorderingRoomsCount | main.c:360-392 | count_bordering_rooms is 4 minus the number of ROOM_NONE neighbours, which equals the number of occupied neighbours |
| Grid.SingleBorder | main.c:473-502 | a tile with at most one bordering room that borders a room in direction d borders no other room |
| Grid.AllSameNeighboursMeaning | main.c:395-470 | all-same-neighbours holds exactly when at least two neighbours are occupied, all occupied neighbours share one type and that type is not ROOM_NORMAL |
| Grid.CollectNeighbourTypes | main.c:403-441 | the collected types are those of the occupied neighbours, in up, right, bottom, left order, and there are as many as count_bordering_rooms |
| Grid.GatherNeighbour | main.c:415-441 | one neighbour test appends that neighbour's type exactly when it is occupied |
| Grid.GatheredAllOfType | main.c:449-459 | every collected type equals t exactly when every occupied neighbour has type t |
| Grid.RoomAllSameNeighbours | main.c:395-470 | the loop's answer is the all-same-neighbours test |
| Grid.IsValidSuperSecretNeighbour | main.c:881-942 | the loop's answer is true exactly when every occupied neighbour is ROOM_NORMAL |
| Grid.IsValidSecretNeighbour | main.c:739-767 | a neighbour accepts a secret door exactly when it is NORMAL, START, SHOP, ITEM or SECRET, so ROOM_NONE, BOSS and SUPER_SECRET are refused |
| DungeonSpec.MaxRooms | main.c:1038 | max_rooms lies between 4 + 2·level_id and 6 + 2·level_id |
| DungeonSpec.MaxSecrets | main.c:1041 | max_secrets is 1 or 2 |
| DungeonSpec.StepsToAdjacent | main.c:696-733 | an adjacent room is reached from a tile by exactly one of the four `if` blocks, and a non-adjacent one by none |
| DungeonSpec.AdjacentRoomsCountsNeighbours | main.c:685-736 | with no repeats in the queue, the chance a tile gains equals the number of its four neighbours in the queue |
| DungeonSpec.AdjacentRoomsPositive | main.c:685-736 | a tile gains a chance exactly when some queued room is adjacent to it |
| DungeonSpec.AdjacentRoomsAreBordering | main.c:685-736 | when the occupied tiles are the queued ones, the chance gained equals count_bordering_rooms |
| DungeonSpec.ChanceAfterStep | main.c:690-734 | scanning one more room adds one chance exactly to its non-room neighbours |
| DungeonSpec.AddAllMembers | main.c:696-733 | adding cells keeps the list free of repeats and it holds exactly the old entries and the added non-room cells |
| DungeonSpec.TouchNeighboursUnfold | main.c:696-733 | one room's scan is the four `if` blocks in up, right, bottom, left order |
| DungeonSpec.TouchNeighboursMembers | main.c:696-733 | after one room's scan the list has no repeats and holds the old entries plus the non-room neighbours of the room |
| DungeonSpec.TouchNeighboursIn | main.c:696-733 | after one room's scan the list holds exactly the old entries plus the non-room neighbours of the room |
| DungeonSpec.NextToScannedStep | main.c:690-734 | a tile is next to one of the first n scanned rooms exactly when it is next to one of the first n-1 or to room n |
| DungeonSpec.SecretCandidatesMembers | main.c:685-736 | secret_position_list has no repeats and holds exactly the non-room tiles next to a scanned room |
| DungeonSpec.SecretCandidatesNoDup | main.c:685-736 | secret_position_list never holds a tile twice |
| DungeonSpec.SecretCandidatesIn | main.c:685-736 | a tile is a secret position exactly when it is not a room and borders a scanned room |
| DungeonSpec.CandidatesNearRooms | main.c:685-736 | secret positions are not rooms, and lie one step further from the centre than the farthest room at most |
| DungeonSpec.ItemTileStep | main.c:618-651 | scanning one more end room makes it ITEM exactly when it is neither the boss nor the shop room |
| DungeonSpec.ItemRoomsMembers | main.c:618-651 | item_room_list has no repeats and holds exactly the end rooms that are neither boss nor shop |
| DungeonSpec.ItemRoomsCount | main.c:618-651 | there are as many item rooms as end rooms, less one for the boss and one for a different shop when they are end rooms |
| DungeonSpec.SqDistZero | main.c:546-584 | the squared distance to the start is zero exactly at the start tile |
| DungeonSpec.FirstFarthestUnique | main.c:546-584 | the earliest end room at the greatest distance is unique |
| DungeonSpec.FarthestIndex | main.c:546-584 | the boss scan's answer is -1 or an index of the end-room list |
| DungeonSpec.FarthestIndexIsFirstFarthest | main.c:546-584 | the boss scan finds nothing exactly when every end room is the start tile; otherwise it picks the earliest end room whose distance is strictly the greatest |
| DungeonSpec.EndRoomsMembers | main.c:505-541 | end_room_list has no repeats and holds exactly the queued ROOM_NORMAL rooms with at most one door and at most one bordering room |
| DungeonSpec.RankPassTakes | main.c:785-812 | one pass appends, without repeats and without passing max_secrets, only candidates of its chance, and when it stops short it has taken all of them |
| DungeonSpec.RankPassesBound | main.c:776-813 | the passes never repeat a room and never list more than max_secrets |
| DungeonSpec.RankPassesSelect | main.c:776-813 | the passes choose distinct candidates of chance 1 to 4, in non-increasing chance order, at most max_secrets, and take every such candidate when they stop short |
| DungeonSpec.RankPassesTaken | main.c:776-813 | every chosen room is a candidate whose rank is between 1 and 4 |
| DungeonSpec.RankPassesOrdered | main.c:776-813 | the chosen rooms come in non-increasing rank order |
| DungeonSpec.RankPassesComplete | main.c:776-813 | when fewer than max_secrets are chosen, every candidate with rank 1 to 4 was chosen |
| DungeonSpec.SecretPassesSelect | main.c:776-813 | on the grid, the passes choose distinct candidates in non-increasing chance order, never one with all-same neighbours or chance 0, at most max_secrets, and take all eligible ones when short |
| DungeonSpec.RankPassesWithin | main.c:776-813 | every chosen room was already listed or is a secret position |
| DungeonSpec.RankPassWithin | main.c:785-812 | every room one pass lists was already listed or is a secret position |
| DungeonSpec.WiredTileDoors | main.c:816-866 | a wired room takes the new type, opens a door toward each accepted neighbour, adds one to `doors` per opened door and keeps its other fields |
| DungeonSpec.WiredGridTileKind | main.c:816-866 | after the wiring loop the first listed rooms are ROOM_SECRET, every other tile keeps its type, and ids, positions and chances are kept |
| DungeonSpec.WiredGridTileDoors | main.c:826-864 | after the wiring loop a tile has a door exactly where it had one or where it opened one at its turn, and `doors` grew by one per opened door |
| DungeonSpec.WiredGridTileSecretDoors | main.c:826-864 | after the wiring loop a tile has a secret door exactly where it had one or where a wired neighbour accepted it, and `secret_doors` grew by one per such neighbour |
| DungeonSpec.WiredGridTileDoorCount | main.c:826-864 | a tile whose `doors` matched its flags, and that opens no door it already had, still has `doors` equal to its number of door flags |
| DungeonSpec.WiredGridTileSecretDoorCount | main.c:826-864 | a tile whose `secret_doors` matched its flags, and that gets no secret door it already had, still has `secret_doors` equal to its number of secret flags |
| DungeonSpec.WiredCellClosedForm | main.c:816-866 | the tile the loop leaves, one room at a time, equals the closed form: wired rooms are ROOM_SECRET with a door toward each neighbour accepted at their turn, and every tile carries the secret doors its wired neighbours opened |
| DungeonSpec.AcceptsClosedForm | main.c:826-864 | whether a room accepts a neighbour at its turn depends only on that neighbour's type on the starting grid, or ROOM_SECRET when it was wired earlier |
| DungeonSpec.WiredRoom | main.c:816-866 | each listed room ends ROOM_SECRET with a door exactly where it had one or toward a neighbour it accepted (none toward a refused one), and one more `doors` per accepted neighbour |
| DungeonSpec.WiredGridAfter | main.c:816-866 | a grid that the loop left tile by tile is the wired grid, in closed form when no room is listed twice |
| DungeonSpec.SuperScanMembers | main.c:947-972 | super_position_list holds exactly the secret positions with chance 1, at most one bordering room and only NORMAL neighbours, each once |
| DungeonSpec.SuperSecretSingleNeighbour | main.c:947-972 | an eligible super secret position with a room next to it has exactly one occupied neighbour, which is NORMAL, and that is the only direction that will get a door |
| Dungeon.Generator.constructor | main.c:76-95 | the globals start out empty: no rooms, empty lists and no special-room pointers |
| Dungeon.Generator.ResetAll | main.c:161-197 | every tile is reset to ROOM_NONE, id -1, its own coordinates, no doors and chance 0; created_rooms and the special-room pointers are cleared |
| Dungeon.Generator.ClearListsAll | main.c:295-303 | all six lists are empty |
| Dungeon.Generator.CreateRoom | main.c:343-355 | the tile takes the type and id created_rooms, created_rooms goes up by one, the tile is added to the queue and no other tile changes |
| Dungeon.Generator.IsValidRoom | main.c:473-502 | an accepted tile is ROOM_NONE, borders at most one room and the room budget is not yet spent |
| Dungeon.Generator.GrownRoomsOccupied | main.c:1064-1115 | during growth, the occupied tiles are exactly the queued ones |
| Dungeon.Generator.GrowthStepQueue | main.c:1071-1113 | an accepted neighbour keeps the queue free of repeats, within budget and within k steps of the centre for room k |
| Dungeon.Generator.GrowthStepCells | main.c:1071-1113 | an accepted neighbour becomes NORMAL with its creation index as id, door counters match door flags, and untouched tiles keep their reset values |
| Dungeon.Generator.GrowthStepDoors | main.c:1071-1113 | after an accepted neighbour, every room has a door exactly toward the neighbouring rooms |
| Dungeon.Generator.PlaceRoom | main.c:1072-1080 | the new room is created and it and its parent get the mirrored door pair |
| Dungeon.Generator.GrowRoom | main.c:1072-1080 | the growth invariant is kept and the new room is appended to the queue |
| Dungeon.Generator.GrowToward | main.c:1071-1113 | either nothing changes or the neighbour, which was ROOM_NONE with at most one bordering room, is appended to the queue; the growth invariant is kept |
| Dungeon.Generator.PlaceStart | main.c:1058-1061 | the centre tile becomes the START room, first in the queue, and start_room_tile points at it |
| Dungeon.Generator.GrowRooms | main.c:1064-1115 | the loop over the queue, including rooms appended during it, keeps the growth invariant and only appends |
| Dungeon.Generator.ExpandRoom | main.c:1068-1113 | one queued room tries its four neighbours and keeps the growth invariant |
| Dungeon.Generator.GrownSettled | main.c:1064-1115 | once growth ends, the queue holds distinct rooms near the centre, the occupied tiles are the queued ones and no chance is set |
| Dungeon.Generator.SettledInterior | main.c:360-392 | every queued room lies off the border, so its neighbour reads stay on the grid |
| Dungeon.Generator.SettledKept | main.c:505-651 | changing only the type of queued rooms keeps the grown grid's shape |
| Dungeon.Generator.SetKind | main.c:571 | only that tile's type changes |
| Dungeon.Generator.FindEndRooms | main.c:505-541 | end_room_list gains the qualifying queued rooms, and the phase succeeds exactly when there are at least 3 |
| Dungeon.Generator.FindBossRoom | main.c:546-584 | the earliest end room strictly farthest from the start becomes BOSS and boss_room_tile points at it, with no other tile changed; it fails exactly when no end room lies away from the start |
| Dungeon.Generator.FindShopRoom | main.c:588-613 | a shop already placed is kept; otherwise an end room other than the boss room becomes SHOP, no other tile changes, and the phase succeeds |
| Dungeon.Generator.FindItemRooms | main.c:618-651 | exactly the end rooms other than boss and shop become ITEM and are listed; success means two fewer item rooms than end rooms |
| Dungeon.Generator.IsValidSecretPos | main.c:654-681 | a tile is accepted only when it is ROOM_NONE, has a positive secret chance and is not listed yet, and an accepted tile is appended at the end of secret_position_list; a rejected one fails one of the three tests. Its effect on the list is specified through TouchCell and DungeonSpec.SecretCandidatesMembers |
| Dungeon.Generator.TouchCell | main.c:696-703 | a ROOM_NONE neighbour gains one chance and is listed if not yet listed; no other tile changes |
| Dungeon.Generator.TouchCells | main.c:696-733 | one room's four neighbour blocks run in up, right, bottom, left order |
| Dungeon.Generator.CellsListMeaning | main.c:696-733 | the four blocks add the non-room neighbours to the list in order |
| Dungeon.Generator.CellsTilesMeaning | main.c:696-733 | the four blocks give one more chance exactly to the non-room tiles adjacent to the room |
| Dungeon.Generator.CellsTouchedMeaning | main.c:696-733 | one room's scan lists its non-room neighbours and adds a chance to exactly those tiles |
| Dungeon.Generator.TouchRoom | main.c:690-734 | one room's scan keeps the chance preconditions and its effect is the one-room specification |
| Dungeon.Generator.CalculateSecretPosChance | main.c:685-736 | every non-room tile gains one chance per adjacent queued room, and secret_position_list becomes the non-room tiles next to a room in first-touch order |
| Dungeon.Generator.RunSecretPass | main.c:785-812 | one pass lists the candidates of its chance that pass the all-same-neighbours test, stopping at max_secrets |
| Dungeon.Generator.SelectSecretRooms | main.c:776-813 | the four passes produce the chance-ordered selection |
| Dungeon.Generator.OpenSecretPassage | main.c:826-834 | an accepted neighbour gets the mirrored secret door and the room a door toward it; a refused one changes nothing |
| Dungeon.Generator.OpenNeighbours | main.c:826-864 | the room gets a door toward each accepted neighbour, each accepted neighbour gets the secret door back, and nothing else changes |
| Dungeon.Generator.WireRoom | main.c:816-866 | the room takes the new type and is wired to its accepted neighbours |
| Dungeon.Generator.WiredKeeps | main.c:816-866 | wiring changes only the wired room's type |
| Dungeon.Generator.WiredNear | main.c:816-866 | wiring changes only the room and its four neighbours |
| Dungeon.Generator.WiredFlags | main.c:816-866 | wiring only sets door flags and never clears them |
| Dungeon.Generator.WiredOpens | main.c:816-866 | after wiring, the room has a door and the neighbour the secret door back toward every accepted neighbour |
| Dungeon.Generator.WireStep | main.c:816-866 | wiring one more room keeps the loop invariant |
| Dungeon.Generator.WireStepKinds | main.c:816-866 | wiring one more room keeps "the rooms wired so far are SECRET" |
| Dungeon.Generator.WireStepDoors | main.c:816-866 | wiring one more room keeps the door pairs of the rooms wired so far |
| Dungeon.Generator.WireStepFrame | main.c:816-866 | wiring one more room changes tiles only next to the chosen rooms |
| Dungeon.Generator.WireStepTiles | main.c:816-866 | wiring one more room leaves every tile as the loop's description says, one room further |
| Dungeon.Generator.WireStepNear | main.c:826-864 | the room wired in this turn and its four neighbours become the tiles the loop's description gives one room further |
| Dungeon.Generator.WireStepOtherCells | main.c:816-866 | the tiles away from the room wired in this turn are the ones the loop's description gives one room further |
| Dungeon.Generator.WireNext | main.c:818-865 | one turn of the loop wires the next listed room and moves the loop's description one room further |
| Dungeon.Generator.WiredLoopDone | main.c:816-866 | once every listed room is wired, the listed rooms are SECRET, every accepted direction has its door pair, tiles away from the rooms are as before, and the grid is the wired grid |
| Dungeon.Generator.WireSecretRooms | main.c:816-866 | the chosen rooms become SECRET with door pairs toward every neighbour accepted before the loop; every tile is the loop's description, and with no room listed twice each room has a door exactly toward its accepted neighbours with `doors` counting them, and each neighbour gets the secret doors back; tiles away from the rooms are unchanged |
| Dungeon.Generator.FindSecretRooms | main.c:771-877 | the chosen rooms are the chance-ordered selection, wired as the loop's description says (in closed form when distinct), no other type changes, and success means at least max_secrets rooms |
| Dungeon.Generator.ScanSuperPositions | main.c:947-972 | super_position_list becomes the eligible secret positions |
| Dungeon.Generator.ScanListed | main.c:947-972 | the scan lists only secret positions, all of them off the border |
| Dungeon.Generator.WirePicked | main.c:981-1031 | some listed position becomes SUPER_SECRET and is wired to its accepted neighbours |
| Dungeon.Generator.FindSuperSecretRoom | main.c:945-1032 | the phase fails, changing no tile, exactly when no position is eligible; otherwise a listed position becomes SUPER_SECRET and is wired |
| Dungeon.Generator.Restart | main.c:1038-1061 | draw the budgets, reset the grid and lists, and place the START room at the centre |
| Dungeon.Generator.GrowDungeon | main.c:1038-1122 | growth ends with the grown grid, and continues exactly when created_rooms equals max_rooms |
| Dungeon.Generator.PlaceSpecialRooms | main.c:1124-1156 | the end rooms are exactly the qualifying queued rooms; success means at least 3 of them, with boss, shop and item rooms placed |
| Dungeon.Generator.PlaceBossShopItems | main.c:1133-1156 | with enough end rooms, the boss, shop and item phases all succeed |
| Dungeon.Generator.PlaceEnds | main.c:1124-1131 | a queued room is an end room exactly when it qualifies, and there are at least 3 on success |
| Dungeon.Generator.PlaceBoss | main.c:1133-1140 | with end rooms present, the boss is the earliest farthest one and has type BOSS |
| Dungeon.Generator.PlaceShop | main.c:1142-1148 | the shop is an end room other than the boss, of type SHOP |
| Dungeon.Generator.PlaceItems | main.c:1150-1156 | the other end rooms are ITEM rooms, two fewer than the end rooms |
| Dungeon.Generator.PlaceSecrets | main.c:1158-1175 | the secret positions are computed, no queued room changes type, the phases fail exactly when fewer than max_secrets rooms were chosen or no super secret position was eligible, and success places all secret rooms and a super secret room |
| Dungeon.Generator.PrepareSecrets | main.c:1159 | the secret positions are the non-room tiles next to a room, and queued rooms are untouched |
| Dungeon.Generator.FindSecrets | main.c:1161-1175 | it fails exactly when fewer than max_secrets rooms were chosen (and then no super secret scan ran) or no super secret position was eligible; success places max_secrets secret rooms and a super secret room, and no queued room changes type |
| Dungeon.Generator.PlaceSecretRooms | main.c:1161-1167 | the rooms are distinct and at most max_secrets, success means exactly max_secrets of them, and it places them as SECRET rooms off the queue |
| Dungeon.Generator.ListedOffQueue | main.c:1161-1167 | rooms chosen among the secret positions are never queued rooms |
| Dungeon.Generator.PlaceSuperSecretRoom | main.c:1169-1175 | success means some position was eligible, and places a SUPER_SECRET room off the queue |
| Dungeon.Generator.GenerateOnce | main.c:1035-1175 | the attempt fails exactly when created_rooms missed max_rooms, fewer than 3 end rooms were found, fewer than max_secrets secret rooms were chosen or no super secret position was eligible; a successful attempt leaves a finished dungeon with max_rooms rooms grown from the centre, the special rooms, and the secret and super secret rooms |
| Dungeon.Generator.Generate | main.c:1035-1175 | if any attempt succeeds, the dungeon is finished |
| Dungeon.Generator.Furnish | main.c:1124-1175 | it fails exactly when fewer than 3 end rooms, fewer than max_secrets secret rooms or no super secret position were found; success places the special rooms and the secret rooms |
| Dungeon.Generator.SpecialRoomsKept | main.c:1158-1175 | the secret phases keep the special rooms in place |
| DynamicArray.ShrunkCapacityBounds | dynamic_array.c:139-152 | halving never drops below the size and never reaches capacity 0 |
| DynamicArray.ClearedCapacityPositive | dynamic_array.c:180-191 | array_clear leaves a positive capacity |
| DynamicArray.Array.constructor | dynamic_array.c:3-17 | a new array has size 0, capacity ARRAY_INITIAL_CAPACITY (2), the given type_size and no elements |
| DynamicArray.Array.ChangeCapacity | dynamic_array.c:28-42 | the capacity becomes the request, or double when the request is not positive, and the elements are kept |
| DynamicArray.Array.SlotAt | dynamic_array.c:87-101 | a slot is addressed exactly for 0 ≤ index ≤ size, and lies within the capacity |
| DynamicArray.Array.GetAt | dynamic_array.h:185 | array_get_at reads the element at the index |
| DynamicArray.Array.First | dynamic_array.h:203 | array_first reads element 0 |
| DynamicArray.Array.Last | dynamic_array.h:212 | array_last reads element size-1 |
| DynamicArray.Array.ChangeAt | dynamic_array.h:194 | array_change_at overwrites one slot and leaves all others unchanged |
| DynamicArray.Array.Enumerate | dynamic_array.h:214-226 | the enumeration visits elements 0 to size-1 in order |
| DynamicArray.Array.InsertAt | dynamic_array.c:103-125 | with 0 ≤ index ≤ size the elements become old[..index] + [item] + old[index..], growing when full; any other index changes nothing |
| DynamicArray.Array.ShiftUpAndPlace | dynamic_array.c:120-124 | the shifting loop moves the tail up one slot and places the item at the index |
| DynamicArray.Array.Add | dynamic_array.c:127-137 | the item is appended, after doubling the capacity when full |
| DynamicArray.Array.RemoveLast | dynamic_array.c:139-152 | a non-empty array loses its last element and halves its capacity when less than half is used; an empty one is unchanged |
| DynamicArray.Array.ShiftDown | dynamic_array.c:173-175 | the shifting loop moves the tail down one slot over the removed element |
| DynamicArray.Array.RemoveAt | dynamic_array.c:154-178 | with 0 ≤ index < size exactly that element is removed and the rest keep their order; otherwise nothing changes |
| DynamicArray.Array.Clear | dynamic_array.c:180-191 | the array ends empty, with the capacity repeated halving leaves |
| DynamicArray.Array.Swap | dynamic_array.c:213-227 | with both indices in [0, size) the two elements are exchanged, otherwise nothing changes; the elements are always a permutation of the old ones |
| DynamicArray.ArraySize | dynamic_array.c:44-50 | array_size is -1 for NULL and the size otherwise |
| DynamicArray.ArrayCapacity | dynamic_array.c:52-58 | array_capacity is -1 for NULL and the positive capacity otherwise |
| DynamicArray.IsArrayEmpty | dynamic_array.c:68-74 | is_array_empty holds for NULL and otherwise exactly when the size is 0 |
| DynamicArray.IsValidIndex | dynamic_array.c:76-85 | is_valid_index as written holds exactly for 1 ≤ index < size |
| DynamicArray.IsValidIndexRejectsFirstElement | dynamic_array.c:84 | a non-empty array has an element at index 0, yet is_valid_index rejects it |
| DynamicArray.IndexInBoundsSelectsElement | dynamic_array.c:221 | the intended bounds test holds exactly for the indices of stored elements |
| DynamicArray.ArrayFind | dynamic_array.c:193-211 | array_find returns the least index holding the item, and -1 exactly when the item is absent or the array is NULL |
| DynamicArray.AsWrittenShiftSlotsRange | dynamic_array.c:120-122 | the as-written shifting loop writes slots from the new size down to index + 1, starting at the new size |
| DynamicArray.AsWrittenInsertOverrun | dynamic_array.c:116-124 | as written, for any index, some write lands outside the grown buffer exactly when one element fills capacity 1, and the growth copy reads past the old buffer exactly when the array was full |
| DynamicArray.ReachCapacityOne | dynamic_array.c:139-152 | create, add, remove_last, add reaches one element in capacity 1, the state where the as-written insertion writes out of bounds |

## Left out

- Rendering and the host loop are not modelled: entity creation, the debug drawing, room_fnc, level loading, the camera, main() and on_exit_event. They hold no generation logic.
- World-space conversions are not modelled: vec_to_grid, map_get_center_pos and the engine VECTOR values in map_return_pos_x_y. Every tile is addressed by its integer grid coordinates instead.
- list.h is not part of this model. Lists are sequences, and a tile pointer is its coordinates.
  - Every list scan of the form `for (x = list_iterate(it); it->hasNext; x = list_iterate(it))` is assumed to visit every element of the list, the last one included: the end, boss and item scans (main.c:510, 554, 623), the chance scan (main.c:690), the secret passes (main.c:787), the wiring loop (main.c:818), the super secret scan (main.c:949) and the growth loop (main.c:1066). The growth loop also visits rooms appended during the scan.
- Every `random()` draw is a nondeterministic choice within the drawn range. These are the coin of is_valid_room, max_rooms, max_secrets, the shop index and the super secret index.
- Dungeon.Generator.FindShopRoom: the rejection loop that redraws until it hits a non-boss end room is collapsed into one choice among the non-boss end rooms. The contract is that of a loop that terminates.
- Dungeon.Generator.Generate: the unbounded recursion of map_generate is bounded by `fuel` attempts. When every attempt fails, nothing is promised.
- level_id is fixed at 1, as in the source. So max_rooms is 6 to 8, and rooms stay within 7 steps of the centre.
- Boss distance: `vec_dist` on floating world positions is replaced by the squared grid distance, which orders rooms the same way.
- diag() messages and NULL guards on tile pointers are not modelled. Positions are always on the grid.
- super_secret_room_tile: the source never assigns it, and the model keeps it None. The picked room is found in super_position_list by its type.
- Dungeon.Generator.FindSuperSecretRoom is modelled as written.
  - The scan does not recheck the tile type, so a tile that was made SECRET can be picked again.
  - Its `doors` then counts a re-opened door twice (Tiles.ReopenedDoorIsCountedTwice).
  - The contract therefore says "wired", not an exact door count.
- Dungeon.Generator.RunSecretPass requires 1 ≤ chance ≤ 4. The source only runs it with 4, 3, 2 and 1.
- Dungeon.Generator.WireSecretRooms gives the closed form of the wired grid (WiredGridTile, WiredRoomIs) only when no room is listed twice, which the selection passes guarantee. For a list with repeats it states the tile-by-tile description WiredCell alone.
- Dungeon.Generator.PlaceSecrets and Dungeon.Generator.SpecialRoomsKept keep the types of the special rooms. They do not restate door counts after the secret phases, which add doors to those rooms.
- These rules of main.c are kept as written:
  - the boss tie-break is the strict `>` (main.c:560), so the earliest farthest end room wins;
  - every end room other than boss and shop becomes ITEM (main.c:618-651);
  - the end-room floor is 3 (main.c:534);
  - the secret passes take chance 4, 3, 2, 1 (main.c:777-807);
  - SECRET is a valid secret neighbour (main.c:748-766);
  - ids are 0-based creation indices (main.c:343-355).
- Memory management in dynamic_array.c is not modelled: sys_malloc, sys_free, memcpy, allocation failure, `type_size` byte offsets, and array_destroy. The model stores whole elements, and `typeSize` is only recorded.
- DynamicArray.Array.RemoveLast: the NULL written into the freed slot is not modelled. The slot lies beyond `size`; no stored element depends on its value.
- The `* 0.5` products of array_remove_last are modelled as the integer test 2·size < capacity and capacity / 2. These agree with the truncating conversion to size_t.
- array_data is not modelled. It only exposes the buffer pointer.
- array_remove_at, as written, uses `index > size` and `index == size` to reject an index. The model merges these into the single test 0 ≤ index < size, which has the same effect.

## Findings

| source | as written | input that shows it | evidently intended | confidence | as-written member | corrected member |
|---|---|---|---|---|---|---|
| dynamic_array.c:116-122 | array_insert_at increments `size` before the growth test and the shifting loop, so the loop starts at the new size and writes slot old size + 1 | create, add, remove_last (capacity drops to 1), add, then insert_at(0, x): the loop writes slot 2 of a buffer of capacity 2; the growth copy also reads old size + 1 elements from a full buffer | shift from the old size, so that the new element lands in slots 0..old size | not executed | DynamicArray.AsWrittenInsertOverrun | DynamicArray.Array.InsertAt |
| dynamic_array.c:84 | is_valid_index tests `index > 0`, which rejects index 0 | any non-empty array with index 0 | `index >= 0 && index < size`, the test array_swap and array_remove_at apply | not executed | DynamicArray.IsValidIndexRejectsFirstElement | DynamicArray.IndexInBoundsSelectsElement |
