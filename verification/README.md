# Verified models of a Minecraft server

Dafny models of the parts of the server (a Rust workspace, with one Python maintenance script) that carry real
algorithms or protocols, and proofs of what those parts promise. One module per component:

| file | component |
|---|---|
| Pathfind.dfy | A* over walkable cells, path reconstruction, bounded path cache |
| Cfb8.dfy, PacketIo.dfy | AES in 8-bit cipher feedback (section 6.3 of NIST SP 800-38A), length-prefixed frames |
| Items.dfy, Inventory.dfy, Container.dfy, Clicks.dfy | item stacks, inventory, containers, their save files, container clicks |
| Advancement.dfy | advancements granted in hash order towards a least fixed point |
| RateLimiter.dfy | connection log, packet counter, stale-counter collector |
| MobIndex.dfy, Sorting.dfy, Position.dfy | spatial index of mobs and its range queries |
| DirtyBlocks.dfy, ChunkStream.dfy | block changes and chunks sent to clients |
| Fishing.dfy, Enchant.dfy, EnchantText.dfy | weighted loot, enchantment rolling, enchantment text |
| Dedup.dfy | the registry deduplication script |
| Common.dfy | options, results, small sequence and map facts |

Each mutating component is a class whose methods are proved equal to a specification function (or relation), and the
properties are lemmas about that specification, over every input, run or reachable state.

Conventions. A hash map is a finite map; where its iteration order can matter the order is an argument, any
enumeration of the map. Randomness and clocks are arguments. Floating-point coordinates are reals. A place where the
source would panic is a visible outcome (`None`, `Panic`), not a precondition. Each method is one atomic step.

Where the code and its comments disagree the model follows the code: the path finder has no node limit
(`pathfind.rs` line 5 promises 256); deciphering is not the same operation as enciphering (`encryption.rs` line 29);
draining removes nothing (`connection.rs` line 117 says it does); the id mapping of the deduplication script leads to
the next insert of a name, not to the surviving one.

## Model

| member | source | states |
|---|---|---|
| Pathfind.PathFinder.FindPath | crates/mc-player/src/pathfind.rs:52-210 | Near or far targets and unreachable ones give the target itself; a cache hit gives the cached path and counts the use; otherwise, with distinct keys, the waypoints are a shortest 4-neighbour chain of passable cells from a neighbour of the start to the target, and the cache never exceeds 64 entries. On a miss no computed waypoint, in any world the loaded chunks show, stands where the blocks at foot and head height are both solid |
| Pathfind.PathFinder.Remember | crates/mc-player/src/pathfind.rs:172-208 | Below 64 entries an insert loses nothing; at 64 exactly one least-used entry is evicted |
| Pathfind.PassableInWorld | crates/mc-player/src/pathfind.rs:119-134 | In any world the loaded chunks show, a cell is passable exactly when its chunk is loaded and the block at its feet is air or passable or the one above is air, in world coordinates |
| Pathfind.WaypointCentred | crates/mc-player/src/pathfind.rs:166-168 | A waypoint lies over the middle of its cell at the target's height |
| Pathfind.TruncateExact | crates/mc-player/src/pathfind.rs:57-60 | Coordinates are cut towards zero |
| Pathfind.SearchesRange | crates/mc-player/src/pathfind.rs:62-70 | A search takes place exactly when the larger coordinate difference is from 2 to 16 |
| Pathfind.ChunkKeyExact | crates/mc-player/src/pathfind.rs:72-75 | Two calls share a cache entry exactly when start and target lie in the same chunks |
| Pathfind.KeyExact | crates/mc-player/src/pathfind.rs:86-88 | Two cells share a key exactly when both coordinates agree modulo 65536 |
| Pathfind.Search | crates/mc-player/src/pathfind.rs:90-145 | The loop terminates on every terrain without a node cap; scores fall strictly along parent links; `found` is true exactly when a chain of fewer than 2^31-1 steps exists, and then the target's score is at most the length of every chain |
| Pathfind.Expand | crates/mc-player/src/pathfind.rs:114-144 | Relaxing the four neighbours keeps the search invariant and either lowers the sum of all scores or changes nothing |
| Pathfind.Reconstruct | crates/mc-player/src/pathfind.rs:152-163 | Walking the parent links back terminates and yields a chain to the target no longer than its score |
| Pathfind.ShortestPath | crates/mc-player/src/pathfind.rs:90-163 | Search and reconstruction together return a chain that no chain undercuts, exactly when one exists |
| Pathfind.FrontierBound | crates/mc-player/src/pathfind.rs:101-145 | While any chain to the target is open, the cheapest heap entry costs no more than the chain is long; no closed set is needed |
| Pathfind.HeuristicAdmissible | crates/mc-player/src/pathfind.rs:82-84 | The Manhattan estimate never exceeds the length of a chain |
| Pathfind.HeuristicTight | crates/mc-player/src/pathfind.rs:82-84 | Where nothing is in the way a chain of exactly that length exists |
| Pathfind.PopStep | crates/mc-player/src/pathfind.rs:101-112 | Skipping a stale entry loses no scored cell; a fresh entry's cell is the only one left to settle |
| Pathfind.TraceBack | crates/mc-player/src/pathfind.rs:138-142 | From any scored cell the parents lead back to the start in at most score many steps |
| Pathfind.PotentialDrops | crates/mc-player/src/pathfind.rs:138-142 | Each push lowers the sum of scores, absent ones counting as i32::MAX: the termination measure |
| Pathfind.SmallTerrainIsComplete | crates/mc-player/src/pathfind.rs:120-150 | With fewer passable cells than i32::MAX, the search succeeds exactly when the target is reachable at all |
| Pathfind.LoadedChunksAreComplete | crates/mc-player/src/pathfind.rs:120-150 | With fewer than i32::MAX / 256 chunks loaded, the search succeeds exactly when the target is reachable |
| Pathfind.FewCellsMakeShortChains | crates/mc-player/src/pathfind.rs:120-136 | Loops can be cut out: a chain never needs more steps than there are passable cells |
| Pathfind.WindowMakesKeysDistinct | crates/mc-player/src/pathfind.rs:86-88 | If everything passable fits in 65536 blocks per axis, no two cells share a key |
| Pathfind.ChunkWindowMakesKeysDistinct | crates/mc-player/src/pathfind.rs:86-88 | Loaded chunks within a window of 4096 per axis, the start's among them, share no key |
| Cfb8.AesCfb8.Encrypt | crates/mc-network/src/encryption.rs:42-53 | In place, the buffer becomes the CFB8 cipher text of its contents and the register the last 16 bytes of register and cipher text |
| Cfb8.AesCfb8.Decrypt | crates/mc-network/src/encryption.rs:56-68 | In place, the buffer becomes the plain text whose cipher text it held; the register advances by the cipher text |
| Cfb8.DecipherInverts | crates/mc-network/src/encryption.rs:42-68 | For any block function, deciphering inverts enciphering |
| Cfb8.CipherUnique | crates/mc-network/src/encryption.rs:42-53 | The feedback relation determines the cipher text |
| Cfb8.PlainUnique | crates/mc-network/src/encryption.rs:56-68 | The feedback relation determines the plain text |
| Cfb8.EncipherJoins | crates/mc-network/src/encryption.rs:42-53 | Cutting a text anywhere changes neither the cipher text nor the final register |
| Cfb8.XorTwice | crates/mc-network/src/encryption.rs:48 | Masking a byte twice gives it back |
| Cfb8.XorBitwise | crates/mc-network/src/encryption.rs:48 | Bit by bit, the masked byte has a one exactly where byte and mask differ |
| Cfb8.ZeroTextIsKeyStream | crates/mc-network/src/encryption.rs:42-53 | Where the text is zero, the cipher byte is the first byte of the enciphered register itself |
| PacketIo.PacketStream.ReadFrame | crates/mc-network/src/packet_io.rs:36-83 | Returns the next body, deciphered when the cipher is on, or the error the source returns, and consumes exactly that frame |
| PacketIo.PacketStream.ReadLength | crates/mc-network/src/packet_io.rs:38-62 | The byte loop computes the scanned length, with the five-byte limit and the end-of-stream error |
| PacketIo.PacketStream.WriteFrame | crates/mc-network/src/packet_io.rs:89-121 | Appends the plain prefix and the enciphered body, or fails without touching anything |
| PacketIo.PrefixLength | crates/mc-network/src/packet_io.rs:91-108 | Finds the body boundary the reader will find, and rejects a prefix longer than five bytes |
| PacketIo.PacketStream.EnableEncryption | crates/mc-network/src/packet_io.rs:31-33 | The shared secret becomes the register |
| PacketIo.ScanVarInt | crates/mc-protocol/src/varint.rs:34-47 | A written length is scanned back, whatever follows it |
| PacketIo.WrittenPrefixes | crates/mc-protocol/src/varint.rs:34-47 | Four prefixes, byte for byte |
| PacketIo.VarIntFrames | crates/mc-protocol/src/codec.rs:103-110 | Prefix followed by body is a well-formed frame around that body |
| PacketIo.FrameRoundTrip | crates/mc-network/src/packet_io.rs:36-121 | A written frame is read back, and both ends agree again, exactly when its body is at most 2 MB; otherwise the reader reports it too large |
| PacketIo.StreamRoundTrip | crates/mc-network/src/packet_io.rs:36-121 | Any number of frames in one direction arrive in order and leave both registers equal |
| PacketIo.RegisterIgnoresFraming | crates/mc-network/src/packet_io.rs:109-116 | The final register depends on the joined bodies only, not on how they were framed |
| PacketIo.HalfDuplexRoundTrip | crates/mc-network/src/packet_io.rs:8-14 | Two ends taking turns never lose synchronisation, although each has one register for both directions |
| InventoryModel.Inventory.AddItem | crates/mc-player/src/inventory.rs:27-55 | The array becomes the specified addition and the leftover is returned |
| InventoryModel.Inventory.CountItem | crates/mc-player/src/inventory.rs:58-64 | Sums the counts of an item |
| InventoryModel.Inventory.RemoveItem | crates/mc-player/src/inventory.rs:67-83 | The array becomes the specified removal and the number removed is returned |
| InventoryModel.AddConserves | crates/mc-player/src/inventory.rs:27-55 | The item's total grows by what fitted; every other item's total stays |
| InventoryModel.AddFills | crates/mc-player/src/inventory.rs:27-55 | Only matching stacks grow and only empty slots are filled, never beyond 64; a leftover means no slot is empty and no matching stack has room |
| InventoryModel.AddStacksFirst | crates/mc-player/src/inventory.rs:31-51 | New stacks appear only when every matching stack is full |
| InventoryModel.AddAt | crates/mc-player/src/inventory.rs:27-55 | Every slot after an addition: matching stacks fill to 64 first, first slot first, then empty slots do |
| InventoryModel.AddLeftover | crates/mc-player/src/inventory.rs:27-55 | The leftover is what exceeds the room in matching stacks plus 64 per empty slot |
| InventoryModel.SecondToolOverfills | crates/mc-player/src/inventory.rs:29-42 | A second item with durability joins the first in one stack, above its limit of one |
| InventoryModel.RemoveExact | crates/mc-player/src/inventory.rs:67-83 | Removes exactly the smaller of the request and the total, and nothing else |
| InventoryModel.RemoveAt | crates/mc-player/src/inventory.rs:67-83 | Every slot after a removal: a matching stack gives what is still asked for after the slots before it, and is gone when nothing is left; no slot holds zero items |
| InventoryModel.RemoveInOrder | crates/mc-player/src/inventory.rs:67-83 | A stack is touched only when every matching stack before it is used up |
| InventoryModel.AddThenRemove | crates/mc-player/src/inventory.rs:27-83 | Removing what was added restores every item's total |
| InventoryModel.Inventory.Serialize | crates/mc-player/src/inventory.rs:201-230 | Writes the 41 slots in the version 2 format |
| InventoryModel.Inventory.Deserialize | crates/mc-player/src/inventory.rs:234-299 | For every byte string, without leaving its bounds, rebuilds the slots `Load` defines (versions 1 and 2) and resets the selected slot |
| InventoryModel.SaveLoad | crates/mc-player/src/inventory.rs:201-299 | Loading a save gives the normal form of every slot, except that a bare stack in the last armour slot is lost |
| InventoryModel.SaveLoadExact | crates/mc-player/src/inventory.rs:253-279 | The round trip holds exactly when the last armour slot is empty or carries non-empty NBT |
| InventoryModel.LoadVersionOne | crates/mc-player/src/inventory.rs:234-299 | A version 1 file of any number of main slots but two loads them and nothing else, but for a bare stack at its end |
| InventoryModel.CountTwoIsMisread | crates/mc-player/src/inventory.rs:240-250 | A version 1 file of two slots, of which the first is written with marker 0 or 1, is taken for version 2 and gives at most one slot |
| Items.NormalKeeps | crates/mc-player/src/inventory.rs:253-279 | A load keeps id, count, non-empty NBT and positive durability, and changes nothing the second time |
| Items.WrittenStack | crates/mc-player/src/inventory.rs:205-224 | One written slot, byte for byte |
| InventoryModel.BareBootsLost | crates/mc-player/src/inventory.rs:256 | Iron boots without NBT, worn last, do not survive a save |
| Container.ContainerManager.SerializeAll | crates/mc-player/src/container.rs:157-191 | Writes every persistent container, in any map order |
| Container.ContainerManager.DeserializeAll | crates/mc-player/src/container.rs:195-254 | Inserts what `LoadBytes` defines; reports when the source would index out of bounds |
| Container.SaveLoad | crates/mc-player/src/container.rs:157-254 | For every order, loading a save adds exactly the saved containers in normal form to what was there |
| Container.ReadSlotBack | crates/mc-player/src/container.rs:218-250 | A written slot is read back in normal form with the position right behind it |
| Container.OldSaveLoad | crates/mc-player/src/container.rs:195-254 | A version 1 file loads exactly its containers, unless its entry count is two modulo 256 |
| Container.WrittenSave | crates/mc-player/src/container.rs:157-191 | One small save, byte for byte |
| Container.SlotsPanicExact | crates/mc-player/src/container.rs:217-250 | On any data, reading slots indexes out of bounds exactly when, after some of them, the reader stands five bytes before the end at a present slot |
| Container.LoadPanicsExact | crates/mc-player/src/container.rs:195-254 | Loading any file indexes out of bounds exactly when, after some of the entries it announces and some of the slots the next of them announces, the reader stands five bytes before the end at a present slot |
| Container.PanicByte | crates/mc-player/src/container.rs:195-254 | A look at one byte rules that out: it happens only if the fifth byte from the end is 1 and the file has room for an entry and the start of a slot |
| Container.CutSavePanicsExactly | crates/mc-player/src/container.rs:195-254 | Loading a save cut off anywhere indexes out of bounds exactly when the cut falls right behind the id of a present slot, or inside an NBT field whose bytes do so when read for the slots and entries that were cut off |
| Container.CutChestPanics | crates/mc-player/src/container.rs:221-223 | The save of a chest with one stack, cut at byte 24, makes the loader index out of bounds |
| Container.ContainerManager.Open | crates/mc-player/src/container.rs:42-66 | Shows the persisted slots, or empty ones; window 0 is never given out, and ids run from 1 to 255 in order |
| Container.WindowIdReturns | crates/mc-player/src/container.rs:43-49 | A window id comes up again after every 255 openings and not before |
| Container.ContainerManager.Close | crates/mc-player/src/container.rs:69-75 | Persists exactly the slots of the closed window |
| Container.ContainerManager.SetSlot | crates/mc-player/src/container.rs:94-100 | Writes one slot and counts the state id up by one, with 32-bit wrap-around; does nothing when the slot is out of range, and leaves other windows alone |
| Container.ContainerManager.GetSlot | crates/mc-player/src/container.rs:110-113 | Reads one slot, nothing when it is out of range |
| Clicks.Session.HandleClick | crates/mc-network/src/play_loop.rs:2553-2722 | Stepping through the branches gives the specified state for modes 0, 2, 5 and 6 |
| Clicks.Session.DoubleClick | crates/mc-network/src/play_loop.rs:2694-2720 | The sweep over the live slots equals the specified collection |
| Clicks.DoubleClickCollects | crates/mc-network/src/play_loop.rs:2694-2720 | With a stack within its limit in hand, a double click brings the hand to the smaller of the limit and all there is, each slot giving what is still lacking after the slots before it |
| Clicks.DoubleClickInOrder | crates/mc-network/src/play_loop.rs:2700-2713 | A slot is touched only when every matching slot before it was emptied |
| Clicks.OverfullDoubleClickCuts | crates/mc-network/src/play_loop.rs:2694-2720 | With a stack above its limit in hand it only cuts that stack down |
| Clicks.LeftClickExchanges | crates/mc-network/src/play_loop.rs:2558-2564 | A left click in range exchanges hand and slot and touches nothing else |
| Clicks.RightClickHalves | crates/mc-network/src/play_loop.rs:2565-2603 | A right click with an empty hand takes half a stack, the larger half |
| Clicks.RightClickPlacesOne | crates/mc-network/src/play_loop.rs:2565-2603 | A right click with a stack in hand places one item where there is room for it, and does nothing elsewhere |
| Clicks.HotbarClickExchanges | crates/mc-network/src/play_loop.rs:2616-2630 | A hotbar click exchanges the slot with that place of the hotbar |
| Clicks.DragEndPlacesQuarter | crates/mc-network/src/play_loop.rs:2658-2692 | The end of a drag leaves a quarter of the stack, rounded up, in an empty slot |
| Clicks.ClickAccounts | crates/mc-network/src/play_loop.rs:2558-2720 | For every click on non-empty stacks, within their limits or not, each item's total falls by exactly what the click destroys; no click makes an item |
| Clicks.ConservesExactly | crates/mc-network/src/play_loop.rs:2163-2165 | A click conserves every item exactly when it is not lossy: a slot out of range with something to put there, or a double click with a stack above its limit in hand |
| Clicks.OverfullDoubleClickLoses | crates/mc-network/src/play_loop.rs:2694-2720 | Two fishing rods merged into one stack by the inventory lose one of them to a double click in range |
| Clicks.LeftClickOutsideLoses | crates/mc-network/src/play_loop.rs:2561-2564 | A left click on slot 50 of a chest of 27 slots throws the cursor away |
| Clicks.ClickKeepsSound | crates/mc-network/src/play_loop.rs:2558-2720 | Where every stack keeps between one item and its maximum, it does so after every click, even a lossy one |
| Clicks.RunConserves | crates/mc-network/src/play_loop.rs:2554-2721 | A run of any length keeps every item's total over cursor, container and hotbar exactly when none of its clicks is lossy when it comes |
| Clicks.RunAccounts | crates/mc-network/src/play_loop.rs:2554-2721 | Over any run an item's total falls by exactly the sum of what its clicks destroyed |
| Clicks.SoundRunConserves | crates/mc-network/src/play_loop.rs:2554-2721 | From stacks within their limits every run of clicks inside the container conserves every item and keeps the limits |
| Advancement.AdvancementTracker.CheckCriterion | crates/mc-player/src/advancement.rs:172-197 | Records the criterion and makes one pass in the given order, for one player only |
| Advancement.AdvancementTracker.Grant | crates/mc-player/src/advancement.rs:200-203 | Adds the id and says whether it was new |
| Advancement.PassReports | crates/mc-player/src/advancement.rs:177-196 | Reports exactly the newly completed ids, each once |
| Advancement.PassSound | crates/mc-player/src/advancement.rs:179-194 | Grants nothing outside any set closed under the rules |
| Advancement.PassProgress | crates/mc-player/src/advancement.rs:179-194 | Grants everything that was ready when the pass began |
| Advancement.ChildAfterParent | crates/mc-player/src/advancement.rs:179-192 | A child that the pass meets after granting its parent is granted in the same pass |
| Advancement.OrderDecides | crates/mc-player/src/advancement.rs:179-192 | Of a ready parent and its child, both open, the pass grants the child exactly when it meets the parent first |
| Advancement.ParentsFirstCloses | crates/mc-player/src/advancement.rs:179-194 | A pass that meets every parent before its children earns the least closed set at once |
| Advancement.PassKeepsParentClosed | crates/mc-player/src/advancement.rs:179-194 | A pass keeps the completed set closed under parents, whatever its order, exactly when the parent of each advancement without criteria is completed or ready beforehand |
| Advancement.RunsKeepParentClosed | crates/mc-player/src/advancement.rs:172-197 | Without grants, all runs from all closed sets keep the set closed exactly when, in the registry, nothing without criteria hangs below something that has criteria or is missing |
| Advancement.ShippedRegistryKeepsParents | crates/mc-player/src/advancement.rs:76-131 | With the server's own entries the completed set is closed under parents in every run without grants |
| Advancement.PassesReachLeastClosed | crates/mc-player/src/advancement.rs:172-197 | After tree depth plus one passes, in whatever orders, the completed set is the least closed set above the starting one |
| Advancement.RunRepeats | crates/mc-player/src/advancement.rs:172-197 | Checking one criterion again and again is that sequence of passes |
| Advancement.RepeatedChecksReachLeastClosed | crates/mc-player/src/advancement.rs:172-197 | Tree depth plus one checks of one criterion, in whatever orders, earn exactly the least closed set |
| Advancement.ShippedForest | crates/mc-player/src/advancement.rs:91-128 | The server's own advancements form a forest nine generations deep |
| Advancement.TenChecksSuffice | crates/mc-player/src/advancement.rs:172-197 | So with them ten checks of one criterion, in whatever orders, earn exactly the least closed set |
| Advancement.RunSound | crates/mc-player/src/advancement.rs:172-197 | Over any run of events only what the final criteria justify is granted |
| RateLimiter.Limiter.CheckConnection | crates/mc-network/src/rate_limiter.rs:41-52 | Purges, decides and records as the specified step |
| RateLimiter.Limiter.CheckPacket | crates/mc-network/src/rate_limiter.rs:61-82 | Charges the counter of the current second as the specified step |
| RateLimiter.Limiter.CleanupStaleEntries | crates/mc-network/src/rate_limiter.rs:86-92 | Drops exactly the counters idle for a minute |
| RateLimiter.Limiter.CleanupConnection | crates/mc-network/src/rate_limiter.rs:55-57 | Drops the counter of one address |
| RateLimiter.SixConnectionsSpanAMinute | crates/mc-network/src/rate_limiter.rs:41-52 | In every run, any six accepted connections of one address span at least 60 seconds |
| RateLimiter.RefusalExact | crates/mc-network/src/rate_limiter.rs:45-49 | A connection is refused exactly when the fifth-last acceptance is less than 60 seconds old |
| RateLimiter.PacketsPerSecond | crates/mc-network/src/rate_limiter.rs:55-82 | In every run, the packets accepted per address and whole second are exactly the first 20 of each stretch between its disconnects |
| RateLimiter.PacketRefusal | crates/mc-network/src/rate_limiter.rs:75-78 | A packet is refused exactly when 20 were offered in the same second since the last disconnect |
| RateLimiter.DisconnectRestarts | crates/mc-network/src/rate_limiter.rs:55-57 | A disconnect lets the next packet through whatever came before |
| RateLimiter.CleanupInvisible | crates/mc-network/src/rate_limiter.rs:86-92 | Calling the collector anywhere in a run changes no answer |
| RateLimiter.CollectedExactly | crates/mc-network/src/rate_limiter.rs:86-92 | Right after a collection exactly the addresses with a packet in the last minute, and no disconnect since, have a counter |
| MobIndex.MobManager.Register | crates/mc-player/src/mob.rs:491-499 | Lists the mob under its chunk and stores it |
| MobIndex.MobManager.Remove | crates/mc-player/src/mob.rs:502-512 | Deletes the mob and its listing under the chunk it is in now |
| MobIndex.MobManager.SendPosition | crates/mc-player/src/mob.rs:468-484 | Moves the mob unless the change is below a hundredth on every axis; the index is untouched |
| MobIndex.MobManager.EntitiesInRange | crates/mc-player/src/mob.rs:2430-2456 | The nested chunk loops collect the specified hits with the root of their squared distance, sorted by it |
| MobIndex.MobManager.CountInRange | crates/mc-player/src/mob.rs:2459-2472 | Sums the lengths of the listed chunks |
| MobIndex.RegisterExact | crates/mc-player/src/mob.rs:346-351 | Registering keeps the index exact exactly when the id is new |
| MobIndex.RegisteredAs | crates/mc-player/src/mob.rs:346-351 | A registered mob is stored as it is and no other is touched |
| MobIndex.RemoveExact | crates/mc-player/src/mob.rs:502-512 | Removing keeps the index exact |
| MobIndex.MoveExact | crates/mc-player/src/mob.rs:468-484 | A move keeps the index exact exactly when it is ignored or its target lies in the mob's chunk |
| MobIndex.MovedTo | crates/mc-player/src/mob.rs:468-484 | A mob ends up where it is sent unless no coordinate changes by a hundredth; no other mob is touched |
| MobIndex.RunReported | crates/mc-player/src/mob.rs:2430-2456 | Over any run of registrations, removals and moves in which no id is registered twice: the answer is sorted, names no mob twice, each at its true distance, and reports a mob exactly when it is in range and the chunk of its registration is searched |
| MobIndex.RunComplete | crates/mc-player/src/mob.rs:2430-2456 | So a query misses no mob in range exactly when each of them was registered in a chunk that is searched |
| MobIndex.RunCountNeverUnder | crates/mc-player/src/mob.rs:2459-2472 | Over any such run the quick count is at least the number of mobs in range registered in a searched chunk |
| MobIndex.NearestFirst | crates/mc-player/src/mob.rs:2454 | With a true square root, the sorted answer goes from near to far |
| MobIndex.MovedMobMissed | crates/mc-player/src/mob.rs:2430-2456 | A mob that moved twice is missed by a search around its own position that covers the chunk of its first stop |
| MobIndex.WindowCovers | crates/mc-player/src/mob.rs:2432-2437 | A mob within the radius stands in a chunk of the searched window |
| MobIndex.ChunkRadiusLeast | crates/mc-player/src/mob.rs:2434 | The chunk radius is the least, from one on, that covers the radius |
| MobIndex.DistanceByAxes | crates/mc-player/src/mob.rs:2441-2444 | The squared distance is the sum of the squares along the three axes, height included |
| MobIndex.HitsExact | crates/mc-player/src/mob.rs:2436-2452 | With any index the hits are the mobs in range that are listed in the window |
| MobIndex.QueryExact | crates/mc-player/src/mob.rs:2430-2456 | With an exact index the answer is the brute-force set, each mob once, nearest first |
| MobIndex.QuerySound | crates/mc-player/src/mob.rs:2430-2456 | With any index the answer is sorted and reports only mobs in range at their true distance |
| MobIndex.CountNeverUnder | crates/mc-player/src/mob.rs:2459-2472 | With an exact index the quick count is at least the number of mobs in range |
| Position.SplitRoundTrip | crates/mc-core/src/position.rs:19-42 | The local index is in 0..4095 and section plus index determine the block |
| Position.SplitBijective | crates/mc-core/src/position.rs:19-42 | Every place of every section is the split of exactly one block |
| Position.IndexSteps | crates/mc-core/src/position.rs:19-42 | Places are numbered along x, then z, then upwards from the section's lowest corner |
| Position.SectionHolds | crates/mc-core/src/position.rs:19-42 | The section is the cube of sixteen blocks a side that holds the block, also below zero |
| DirtyBlocks.DirtyBlockTracker.MarkBlock | crates/mc-network/src/connection.rs:66-81 | Appends the change to its section's list |
| DirtyBlocks.DirtyBlockTracker.DrainNearby | crates/mc-network/src/connection.rs:94-113 | Returns copies of the non-empty lists in range and removes nothing |
| DirtyBlocks.NearExact | crates/mc-network/src/connection.rs:94-113 | In range means within the distance along each axis |
| DirtyBlocks.DirtyBlockTracker.CleanupStale | crates/mc-network/src/connection.rs:116-123 | Drops everything past 1024 sections and nothing before |
| DirtyBlocks.PendingHoldsLastWrite | crates/mc-network/src/connection.rs:66-81 | The lists hold the last write of every position |
| DirtyBlocks.ClientAgrees | crates/mc-network/src/connection.rs:94-113 | Whatever it saw before, a client that applies the drained lists agrees with the last write at every marked position in range and is unchanged elsewhere |
| DirtyBlocks.ResendIdle | crates/mc-network/src/play_loop.rs:311-320 | Sending the same lists again changes nothing |
| DirtyBlocks.PendingIsKept | crates/mc-network/src/connection.rs:66-123 | Over any run of marks and clean-ups, what is pending is what the marks since the last clean-up that found more than 1024 sections leave |
| DirtyBlocks.RunAgreesExactly | crates/mc-network/src/connection.rs:66-123 | Over any such run, every client that applies a drain agrees with the last write at a marked position in range exactly when the position was marked since that clean-up |
| ChunkStream.Connection.StreamNewChunks | crates/mc-network/src/connection.rs:1222-1392 | Sends, forgets and records as the specified step |
| ChunkStream.SentExact | crates/mc-network/src/connection.rs:1276-1288 | At most six chunks are sent, none twice, and none deferred is nearer than one sent |
| ChunkStream.DistanceExact | crates/mc-network/src/connection.rs:1276-1288 | A chunk is in view exactly when its distance is at most the radius |
| ChunkStream.VisibleSize | crates/mc-network/src/connection.rs:1235-1241 | The view is a square of 2r+1 chunks a side |
| ChunkStream.StepLoaded | crates/mc-network/src/connection.rs:1385-1388 | The loaded set becomes exactly the square around the player and contains what the client holds |
| ChunkStream.MissingExact | crates/mc-network/src/connection.rs:1276-1388 | What the client lacks is what it lacked and still sees, plus the deferred chunks |
| ChunkStream.InStepExact | crates/mc-network/src/connection.rs:1276-1388 | The client holds the whole square exactly when nothing missing stays in view and at most six chunks are new |
| ChunkStream.StepLags | crates/mc-network/src/connection.rs:1276-1290 | From the fully sent view of a player who has joined, a step to any chunk leaves the client behind exactly when more than six chunks come into view |
| ChunkStream.StraightStepLags | crates/mc-network/src/connection.rs:1276-1290 | A step of one chunk along an axis, in any of the four directions, does so exactly when the view radius is 3 or more |
| ChunkStream.RunLoaded | crates/mc-network/src/connection.rs:1222-1392 | Over any run the loaded set is the square around the player and the client holds part of it |
| ChunkStream.RunMissingExact | crates/mc-network/src/connection.rs:1222-1392 | Over any run that begins in step, the client lacks a chunk exactly when some step had it new and not among the six it sent, and it has been in view at every later step |
| ChunkStream.RunInStepExact | crates/mc-network/src/connection.rs:1222-1392 | After such a run the client holds all that is loaded exactly when there is no such chunk |
| ChunkStream.FewNewInStep | crates/mc-network/src/connection.rs:1222-1392 | In particular when no step had more than six new chunks |
| ChunkStream.MissingStaysMissing | crates/mc-network/src/connection.rs:1386-1388 | A deferred chunk is never sent while it stays in view |
| Sorting.SortSorts | crates/mc-network/src/connection.rs:1284 | Sorting by key permutes and orders |
| Sorting.SortStable | crates/mc-player/src/mob.rs:2454 | Entries with equal keys keep their order |
| Fishing.FishingManager.RollLoot | crates/mc-player/src/fishing.rs:159-198 | Picks the entry whose stretch of weights holds the roll; cod only when no entry has weight |
| Fishing.FishingManager.ReelIn | crates/mc-player/src/fishing.rs:103-115 | Removes the bobber; there is loot exactly when a fish was on it: the entry the roll picks, cod when no entry has weight |
| Fishing.FishingManager.Cast | crates/mc-player/src/fishing.rs:87-100 | A new bobber waits between 20 and 699 ticks |
| Fishing.FishingManager.Cancel | crates/mc-player/src/fishing.rs:118-120 | Removes the bobber and nothing else |
| Fishing.FishingManager.Tick | crates/mc-player/src/fishing.rs:128-156 | Advances every bobber once and reports exactly the new bites, each once |
| Fishing.BitesOnce | crates/mc-player/src/fishing.rs:133-145 | A bobber bites in its last waiting tick, in no other, and stays biting |
| Fishing.PickExact | crates/mc-player/src/fishing.rs:179-195 | An entry is picked by exactly the rolls of its own stretch |
| Fishing.FairShare | crates/mc-player/src/fishing.rs:159-195 | Each entry gets exactly its adjusted weight's number of rolls |
| Fishing.LuckSteps | crates/mc-player/src/fishing.rs:163-170 | A level of luck adds two to treasure, takes one from junk down to zero and leaves fish alone |
| Fishing.LuckHelps | crates/mc-player/src/fishing.rs:159-195 | With more luck the chance of treasure never falls and that of junk never rises |
| Fishing.LureShortens | crates/mc-player/src/fishing.rs:87-91 | Each level of the lure takes a hundred ticks off the wait, down to twenty |
| Fishing.CatchExact | crates/mc-player/src/fishing.rs:186-192 | The catch is a fresh stack of the entry's item, of a size in its range |
| Fishing.CandidatesPick | crates/mc-player/src/fishing.rs:163-173 | Leaving out weightless entries changes no choice |
| Fishing.CountExact | crates/mc-player/src/fishing.rs:187-191 | The count lies in the entry's range; it overflows exactly for an empty range and for 0..255 |
| Fishing.CountReached | crates/mc-player/src/fishing.rs:187-191 | Every count of the range comes up |
| Enchanting.RollEnchantment | crates/mc-player/src/enchant.rs:108-134 | The loop over chosen names equals the specified roll, with levels |
| Enchanting.ConflictsSymmetric | crates/mc-player/src/enchant.rs:43-105 | The conflict lists of the registry agree with each other |
| Enchanting.RolledCompatible | crates/mc-player/src/enchant.rs:118-132 | Any number of rounds chooses distinct, pairwise conflict-free candidates |
| Enchanting.RollExact | crates/mc-player/src/enchant.rs:108-134 | At most three fitting, non-treasure, distinct and conflict-free enchantments at levels they can have |
| Enchanting.RolledMaximal | crates/mc-player/src/enchant.rs:121-125 | The roll is short only when no candidate is left that would fit |
| Enchanting.RoundsExact | crates/mc-player/src/enchant.rs:113 | One round below level 15, two below 30, three from there on |
| Enchanting.RollFills | crates/mc-player/src/enchant.rs:108-134 | A roll has one enchantment a round unless nothing is left that fits, and is empty only when nothing fits the item |
| Enchanting.LevelsCycle | crates/mc-player/src/enchant.rs:129 | Enchantment levels go round from one to the highest as the table level rises |
| Enchanting.ChoiceMoves | crates/mc-player/src/enchant.rs:127 | The choice moves seven places for each item id and thirteen for each level, going round |
| Enchanting.WithLevelsAt | crates/mc-player/src/enchant.rs:129-131 | Every enchantment rolled is handed out in order, each at its own level |
| EnchantText.Write | crates/mc-network/src/play_loop.rs:2247-2250 | Writes the pieces in order |
| EnchantText.ParseItemEnchants | crates/mc-player/src/enchant.rs:155-170 | Absent data and data that is not UTF-8 hold nothing; otherwise inserts what each word contributes; no answer when a slice would be inverted |
| EnchantText.PrintParse | crates/mc-player/src/enchant.rs:155-170 | Printing a map in any order and parsing it gives the map back |
| EnchantText.ParseAbortsExactly | crates/mc-player/src/enchant.rs:159-163 | Parsing aborts the server exactly when some word has its first closing parenthesis before its first opening one |
| EnchantText.PieceParses | crates/mc-player/src/enchant.rs:159-167 | One printed piece parses to its name and level |
| EnchantText.LevelRoundTrip | crates/mc-player/src/enchant.rs:163 | Every 8-bit number is read back from its decimal form |
| EnchantText.ParseLevelExact | crates/mc-player/src/enchant.rs:163 | Digits, with at most a plus sign in front, are read exactly when the number is below 256 |
| EnchantText.ParseLevelRejects | crates/mc-player/src/enchant.rs:163 | Anything else is not a level |
| EnchantText.WordsExact | crates/mc-player/src/enchant.rs:158 | The words are non-empty, free of white space, and together all the rest of the text |
| EnchantText.FindFirst | crates/mc-player/src/enchant.rs:159-160 | The parenthesis found is the first |
| EnchantText.WrittenPiece | crates/mc-network/src/play_loop.rs:2247-2250 | One piece, character for character |
| Dedup.Run | scripts/dedup_apply.py:14-73 | The two passes write exactly the lines no later insert supersedes, and the id mapping; a dry run writes nothing |
| Dedup.KeptMeaning | scripts/dedup_apply.py:30-65 | The rewritten file builds the same last-wins registry |
| Dedup.KeptOnce | scripts/dedup_apply.py:30-65 | Every inserted name is on exactly one line |
| Dedup.KeptOrder | scripts/dedup_apply.py:61-65 | Lines are only left out, never reordered, and only inserts are left out |
| Dedup.KeptFixed | scripts/dedup_apply.py:30-65 | A second run changes nothing |
| Dedup.MappingIsNext | scripts/dedup_apply.py:36-41 | With distinct ids, a removed line's id maps to that of the next insert of its name |
| Dedup.MappingSurvives | scripts/dedup_apply.py:36-41 | That is the surviving id exactly when the next insert is the last |
| Dedup.FollowReachesSurvivor | scripts/dedup_apply.py:36-41 | Following the mapping repeatedly leads from the id of any insert to the surviving id of its name |
| Dedup.OneLookupIsNotEnough | scripts/dedup_apply.py:36-41 | With three inserts of one name a single lookup of the first id gives an id that does not survive |

## Left out

- PathFinder.FindPath: the shortest-path half holds under KeysDistinct, because a key keeps 16 bits of each coordinate; what the search does when two reachable cells share a key is not described beyond termination.
- PathFinder.Remember: the retry loop and the bulk eviction are reached only when other threads insert at the same time, so they are not modelled.
- Search: coordinates and costs are unbounded integers; 32-bit overflow of coordinates near the edge of the number range is not modelled, the use of i32::MAX for a missing score is.
- Limiter.CheckPacket: requires that the clock does not run backwards, which the monotonic clock of the source guarantees.
- RollEnchantment: levels are not negative, as its callers pass them.
- MobManager.EntitiesInRange: the square root is a function that comes with the query, because real arithmetic has none; rounding is not modelled.
- FishingManager.RollLoot: the 32-bit sum of the weights is unbounded here; an overflow of the sum is not modelled.
- Dedup.Run: the regular expression is a parameter that finds at most one insert per line; text encoding and console output are not modelled.
- EnchantText.ParseItemEnchants: the UTF-8 decoder is a parameter that gives the text or rejects the bytes.
- Whether a cached path fits the query: the cache is keyed by chunk pairs, so a hit may belong to other cells of the same chunks.
- Full-duplex encrypted traffic: one register serves both directions, so the round trip does not hold there.
- Click modes 1 and 4 and the workstation branches: they go through the player's whole inventory, drop items, or consume them by design.
- The block-id tables behind container sizes and window types, loot values, and other pure tables except the item limits, the advancement tree and the enchantment registry.
- AES itself, sockets, compression, packet encoders, NBT, SQLite, logging and mob spawning while streaming chunks.
- Two players with the same container open at once, and window ids wrapping onto a window that is still open.
- True concurrency of the shared maps.
