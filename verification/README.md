# Verified kernels of wow_turbo and WoWTranslate

This project models the stateful and numeric kernels of `wow_turbo` and the batch pipeline of
WoWTranslate, and proves what they are for. Code that updates state in place is modelled by classes,
arrays and loops with invariants; each such method is proved against a specification function or
predicate, and lemmas state what that specification means over whole runs and for all inputs.

| file | what it models |
|---|---|
| `Words.dfy`, `Bits.dfy` | wrapping 32-bit and 64-bit words, powers of two, shifts, digit-wise `or`, `and`, `xor`, shared limits |
| `UnitTable.dfy`, `Coalescer.dfy` | the write coalescer: probe table, player mirror and seen-unit table in one object |
| `PlayerMirror.dfy` | one visible slot of the player: the coalescer's decisions and what the screen then shows |
| `SeenUnits.dfy`, `Flicker.dfy` | sightings of a unit as a history, the digest of it that the seen-unit table keeps, and the plain rule the verdict stands for |
| `EagerClient.dfy`, `Adapter.dfy` | the coalescing client (write hook and scene-end flush) against an eager one, over whole runs |
| `Stores.dfy` | which writes are swallowed and how many descriptor stores that saves, over whole runs |
| `Routing.dfy` | which path a descriptor write takes, the player's mirrors or the unit table, and binding to the player |
| `Dct.dfy`, `Synthesis.dfy` | the factored 32-point transform against the direct cosine sum (ISO/IEC 11172-3, section 2.4.3.2.2) |
| `Antialias.dfy` | in-place alias butterflies (ISO/IEC 11172-3, section 2.4.3.4) |
| `Ftol.dfy` | float-to-integer truncation on raw bit patterns (IEEE 754-2008, sections 3.4 and 5.8) |
| `Boxes.dfy`, `Frustum.dfy` | slab clipping, the box transform, frustum culling, over the reals |
| `WorldText.dfy` | placement of floating text clear of other text |
| `FarHeap.dfy` | the max-heap that keeps the nearest objects of a stream |
| `Thunks.dfy`, `Shims.dfy` | the hook-table generator's thunks and assembly shims on small machine models |
| `LogWorker.dfy` | the logging worker as a state machine over atomic steps |
| `Packing.dfy`, `Translation.dfy`, `TranslateQueue.dfy` | batched translation: packing, one exchange, grouping and the worker between its queues |
| `ObjectLookup.dfy` | lookup along an intrusive hash chain in wrapping memory |

## How the idealisations are chosen

* Geometry and signal kernels compute over `real`. Rounding, NaN and signed zero are outside the model.
* The cosine is a parameter `C`, known only through C(0) = 1, C(q) = 0 at a quarter turn q (32 for the
  decoder's transform) and the product-to-sum rule;
  everything else about it is derived.
* The bucket hash, the heap capacity, the curve's trigonometric functions, UTF-8 validity, the clock,
  the probe-window occupancy in the run-level model, memory contents and the translation session are
  parameters. A result about them holds for every choice.
* Interleavings are sequences of atomic steps under sequential consistency.

## Where the code and its description differ

* **Player mirror.** Even the mirror's agreement with the screen fails on unrestricted runs: after a
  zero is applied to an empty slot a pending entry survives, and a later restore is swallowed although
  the screen shows nothing. `PlayerMirror.FaithfulUnlessHazard` gives the exact guard for every step
  and `PlayerMirror.FaithfulThroughoutIffSafe` for whole runs;
  `PlayerMirror.SplitGuidLosesAnItem` is a run that loses an item; `PlayerMirror.DisciplinedRunsStayFaithful`
  proves the property when GUID halves come in pairs and binding never meets a pending entry of another
  object or of an empty slot.
* **Packing.** Item lengths and the total are 32-bit and saturate. A text survives exactly when it is
  nonempty and ends within the first 2^32 - 1 packed bytes; a longer text with nothing before it would
  be cut short rather than refused (`Packing.SplitUndoesPack`). The library is built for
  `i686-pc-windows-msvc` (windows/.cargo/config.toml:1-2), where no `String` or `Vec` reaches 2^31 bytes:
  there every group that can be packed keeps its offsets, and the saturating cases cannot be reached.
* **Re-created units.** A pending zero can outlive its unit. If a unit is made again under the same GUID
  while one is pending, and that field starts with an item set behind the hook, a flush after the entry has
  aged blanks it (`EagerClient.RecreatedUnitLosesItem` is such a run). Fields filled through hooked writes
  (windows/turbo/src/win/transmog.rs:273-277 meets records still being filled in) start empty, and runs
  whose units start empty never fail (`EagerClient.EmptyStartsAreClean`). The source does not show which way
  the client fills a new record. `EagerClient.RefinesStep` gives the exact guard per step and
  `EagerClient.RefinesThroughoutIffClean` for whole runs.
* **Unresolved player.** A zero written to the player's own field before the player token resolves goes to
  the unit table; once the player is bound the restore goes through the mirrors, and a later flush applies
  the zero over it (`Routing.UnresolvedPlayerLosesItem`). `Routing.SeparateUnlessHazard` gives the exact
  guard under which the unit table comes to hold a zero of the bound player, and
  `Routing.SeparateThroughoutIffSafe` the same for whole runs.
* **Stamp zero and the clock's period.** The enter-world verdict uses zero as "no stamp" and a 32-bit clock.
  A unit blanked at a tick whose low 32 bits are zero is not taken for a flicker when it comes back in time
  (`Flicker.ZeroStampIsMissed`), and one next seen a whole period later can be (`Flicker.WholePeriodIsMissed`).
  `Flicker.RestoredExactly` says for every slot and any forward clock when the code takes it for restored;
  within one period the verdict is the plain rule exactly up to stamp zero (`Flicker.VerdictIsPlain`).
* **Empty language tags.** The translator rejects the call before writing any slot, and the caller
  ignores the call's own status, so every item then reads back its default, `Internal`, and not
  `InvalidParams` (`Translation.TranslateSync`, `Translation.OutcomeOf`).
* **Return registers.** A `preserve` list that names a register of the return value is not refused for
  named conventions; such a register does lose its incoming value
  (`Thunks.ReturnRegisterCannotBePreserved`).

## Model

| member | source | states |
|---|---|---|
| UnitTable.MixedWords | windows/turbo/src/transmog.rs:568-589 | the two mixed words are 32 bits wide, so joining them bitwise is adding them, within 64 bits |
| UnitTable.MixIsWide | windows/turbo/src/transmog.rs:563-589 | worked out in 32-bit words, the hash is the 64-bit one: fold the high bits down, multiply with wrap-around, fold again |
| UnitTable.UnitBucket | windows/turbo/src/transmog.rs:563-591 | the joined bits are the 64-bit number of the two words, and its remainder is a cell of the table |
| UnitTable.EmptyTable | windows/turbo/src/transmog.rs:195-210 | a table without a used cell is the empty map |
| UnitTable.WindowStep | windows/turbo/src/transmog.rs:526-533 | a cell inside a key's window is reached by the probe whose step is its distance, around the end of the table |
| UnitTable.Occupy | windows/turbo/src/transmog.rs:535-553 | filling a free cell of an absent key's window adds exactly that key to the map and one to the count |
| UnitTable.Vacate | windows/turbo/src/transmog.rs:409-415 | clearing a used cell removes exactly its key and takes one off the count; the hole breaks no other search |
| UnitTable.Refresh | windows/turbo/src/transmog.rs:362-366 | restamping a used cell changes only that key's record |
| UnitTable.CountFits | windows/turbo/src/transmog.rs:339-415 | the count is the number of live cells and never exceeds the table, so it cannot wrap |
| Coalescing.Coalescer.constructor | windows/turbo/src/transmog.rs:195-210 | a new coalescer has nothing pending, every slot cleared and no unit tracked |
| Coalescing.Coalescer.Idle | windows/turbo/src/transmog.rs:212-216 | true exactly when no key is pending and no slot holds a parked zero |
| Coalescing.Coalescer.UnitFind | windows/turbo/src/transmog.rs:526-533 | finds a key exactly when the map has it, in its own cell |
| Coalescing.Coalescer.UnitInsert | windows/turbo/src/transmog.rs:535-553 | an absent key is added with its stamp; refused exactly when its whole probe window is occupied, leaving the map as it was |
| Coalescing.Coalescer.UnitRemove | windows/turbo/src/transmog.rs:409-415 | removes the cell's key from the map, nothing else; does nothing on a free cell |
| Coalescing.Coalescer.UnitWrite | windows/turbo/src/transmog.rs:339-369 | verdict and new pending map for a write, in all branches: swallowed restore, late or different restore, zero on zero, restamp, insert, full window |
| Coalescing.Coalescer.UnitWriteRef | windows/turbo/src/transmog.rs:371-389 | the same, with the unit reference recorded exactly for a swallowed zero |
| Coalescing.Blink | windows/turbo/src/transmog.rs:339-369 | a caller's zero and the write after it: the zero is swallowed exactly when the table holds or can take the key, the second write exactly when that was so, less than 100 ms have passed and the value is the one still shown; nothing of the key stays pending |
| Coalescing.Coalescer.UnitDue | windows/turbo/src/transmog.rs:391-407 | the first aged cell at or after a position, or none when no cell from there on is aged |
| UnitTable.NoneDueStep | windows/turbo/src/win/transmog.rs:448-465 | freeing the first aged cell leaves none aged up to it, so resuming after it misses none |
| Coalescing.Coalescer.Bind | windows/turbo/src/transmog.rs:223-228 | both mirrors take the live state and every pending entry stays |
| Coalescing.Coalescer.PlayerVisibleWrite | windows/turbo/src/transmog.rs:237-291 | verdict and new state of the written slot in all branches; other slots untouched; the count stays the number of parked zeroes |
| Coalescing.Coalescer.PlayerInvGuidWrite | windows/turbo/src/transmog.rs:298-318 | halves merge into the mirrored GUID; clearing the low half of a slot with a parked zero asks for the zero first; dwords below the equipment pairs change nothing |
| Coalescing.Coalescer.DeferItemWrite | windows/turbo/src/transmog.rs:324-333 | parks an item write exactly when the slot has a parked zero |
| Coalescing.Coalescer.PlayerExpire | windows/turbo/src/transmog.rs:417-433 | drops every parked zero that reached its lifetime and no other |
| Coalescing.Coalescer.PlayerHasPending | windows/turbo/src/transmog.rs:435-439 | true exactly when some slot has a parked zero |
| Coalescing.Compare | windows/turbo/src/transmog.rs:453-496 | the two passes move every stamp as specified, and the verdict is that something changed and every change is an in-window restore |
| Coalescing.Coalescer.SeenSlot | windows/turbo/src/transmog.rs:499-524 | a tracked unit gets its own entry unchanged; a new one a cleared entry, a free one if there is any, else one with the lowest stamp |
| Coalescing.Coalescer.Sight | windows/turbo/src/transmog.rs:447-497 | one sighting extends its unit's tenure and answers as the unit's history does |
| Coalescing.Coalescer.SeenEnterWorld | windows/turbo/src/transmog.rs:447-497 | the answer is the verdict of the unit's history in the whole run of visits, across recycling of entries; within one period of the clock it is the plain rule up to stamp zero |
| PlayerMirror.CountValidUpdate | windows/turbo/src/transmog.rs:237-333 | replacing one slot moves the number of parked zeroes by the change in that slot |
| PlayerMirror.NoneValidIffZero | windows/turbo/src/transmog.rs:212-216 | the count is zero exactly when nothing is parked |
| PlayerMirror.RunsStayWellFormed | windows/turbo/src/transmog.rs:224-333 | on every run, whatever the order of writes, a deferred item implies a parked zero and a parked zero holds a nonzero value |
| PlayerMirror.FaithfulUnlessHazard | windows/turbo/src/transmog.rs:237-318 | a step keeps mirror, parked entry, screen and server in agreement exactly when it does not meet one of two guards |
| PlayerMirror.SafeRunsStayFaithful | windows/turbo/src/transmog.rs:224-333 | runs that never meet a guard stay in agreement |
| PlayerMirror.FaithfulThroughoutIffSafe | windows/turbo/src/transmog.rs:224-333 | a run is in agreement at every point exactly when it never meets a guard |
| PlayerMirror.DisciplinedRunsAreSafe | windows/turbo/src/transmog.rs:298-318 | whole GUID writes and clean bindings never meet a guard |
| PlayerMirror.DisciplinedRunsStayFaithful | windows/turbo/src/transmog.rs:224-333 | from the initial state every disciplined run keeps the mirror equal to the screen and every parked entry equal to both |
| PlayerMirror.SwallowedRestoreIsNoOp | windows/turbo/src/transmog.rs:237-291 | in agreement, a nonzero write leaves its value on screen whether or not it was swallowed |
| PlayerMirror.SplitGuidLosesAnItem | windows/turbo/src/transmog.rs:237-318 | a run with split GUID halves after which the screen misses the item the server wrote |
| PlayerMirror.HalvesMake | windows/turbo/src/transmog.rs:305-310 | a low and a high half in either order make the whole GUID, and each alone keeps the other |
| PlayerMirror.ZeroIsSwallowedIff | windows/turbo/src/transmog.rs:272-290 | in agreement, a zero is swallowed exactly when the screen shows an item and the slot is not known to be empty; the item then stays on screen, and in every other case the screen is blank |
| PlayerMirror.ParkedWaits | windows/turbo/src/transmog.rs:272-333 | a parked zero keeps its value through item writes, younger ticks and GUID halves that do not clear the slot, with the last item written and the time of the last touch |
| PlayerMirror.RestoreReturnsItem | windows/turbo/src/transmog.rs:237-271 | the write of the value still shown is answered with the last item written meanwhile, for the GUID then equipped; any other value goes through and drops the item; nothing stays parked |
| PlayerMirror.ExpiresIff | windows/turbo/src/transmog.rs:417-433 | a parked zero and its item are dropped exactly by a tick five seconds or more after the last touch |
| PlayerMirror.NothingParked | windows/turbo/src/transmog.rs:238-243 | with nothing parked an item write is left alone and a nonzero write goes through |
| SeenUnits.ZeroedLonger | windows/turbo/src/transmog.rs:486-495 | an open zeroing stays open exactly while the slot stays empty within the window |
| SeenUnits.ZeroedNow | windows/turbo/src/transmog.rs:468-471 | a sighting is itself a zeroing exactly when it finds the slot newly empty, at a nonzero time |
| SeenUnits.StampStep | windows/turbo/src/transmog.rs:459-495 | if a slot's stamp is the time of its open zeroing, the two passes leave it the time of the open zeroing one sighting later |
| SeenUnits.RestoresIsHistory | windows/turbo/src/transmog.rs:472-478 | the code's stamp test holds exactly when the history has an open, nonzero-stamped zeroing of the slot that stayed in the window; `Flicker.RestoredExactly` says what that is on the true clock |
| Flicker.KeptOnTrueClock | windows/turbo/src/transmog.rs:484-495 | which blankings the stamps keep, on a clock that does not wrap |
| Flicker.RestoredExactly | windows/turbo/src/transmog.rs:472-495 | a slot is taken for restored exactly when it came back less than the window after it was blanked, by the true clock or one gone round unseen, and was not blanked at stamp zero |
| Flicker.RestoredIsCameBack | windows/turbo/src/transmog.rs:472-495 | within one period of the clock: exactly when it came back in the window and was not blanked at stamp zero |
| Flicker.VerdictIsPlain | windows/turbo/src/transmog.rs:447-497 | within one period the verdict is the plain rule, except that it also wants no changed slot blanked at stamp zero |
| Flicker.ZeroStampIsMissed | windows/turbo/src/transmog.rs:468-478 | an input where the plain rule holds and the verdict is false |
| Flicker.WholePeriodIsMissed | windows/turbo/src/transmog.rs:472-478 | an input where the verdict is true and the plain rule fails |
| SeenUnits.StampsAreOpen | windows/turbo/src/transmog.rs:484-495 | a nonzero stamp belongs to a slot whose snapshot is zero and was younger than the window at the last sighting |
| SeenUnits.DigestStep | windows/turbo/src/transmog.rs:453-496 | an updated entry is the digest of the longer history, and the code's verdict is the history's |
| SeenUnits.SightedKeeps | windows/turbo/src/transmog.rs:499-524 | a sighting extends its own unit's history and keeps all others, except one with the lowest stamp when a new unit meets a full table |
| SeenUnits.SightedTracked | windows/turbo/src/transmog.rs:499-524 | used GUIDs stay distinct, each unit in exactly one entry |
| SeenUnits.SightingStep | windows/turbo/src/transmog.rs:447-524 | the whole effect of one sighting, seen as histories |
| SeenUnits.TenuresArePlaces | windows/turbo/src/transmog.rs:499-524 | over a run, a unit holds the entry of its last visit until another unit is sighted through it |
| SeenUnits.HistoryIsSinceClaim | windows/turbo/src/transmog.rs:447-524 | after any run the history kept for a unit is its sightings since it last claimed an entry |
| SeenUnits.HistoryOfRun | windows/turbo/src/transmog.rs:447-524 | the same for every claim and every unit: exactly the units with a standing claim are held, the others have no history |
| EagerClient.AppliedInTurn | windows/turbo/src/win/transmog.rs:449-475 | applying due keys one at a time is applying them together |
| EagerClient.NoCellDue | windows/turbo/src/transmog.rs:396-407 | a table without an aged cell has no aged key |
| EagerClient.RefinesStep | windows/turbo/src/transmog.rs:339-415 | every write and flush keeps the refinement, and re-creating a unit keeps it exactly when no field with a pending zero starts with an item |
| EagerClient.EmptyStartsAreClean | windows/turbo/src/transmog.rs:339-415 | runs in which units start with empty fields are clean, whatever is pending |
| EagerClient.RunsRefine | windows/turbo/src/transmog.rs:339-415 | the refinement holds on every clean run with an arbitrary wrapping clock, returning units included |
| EagerClient.RefinesThroughoutIffClean | windows/turbo/src/transmog.rs:339-415 | a run refines the eager client at every point exactly when all its steps are clean |
| EagerClient.RecreatedUnitLosesItem | windows/turbo/src/win/transmog.rs:448-475 | a run in which a re-created unit's item, set behind the hook, is blanked by a flush |
| EagerClient.RunsOccupied | windows/turbo/src/transmog.rs:348-369 | a pending key of a unit that has not been made again still shows an item |
| EagerClient.ServerIsLastWritten | windows/turbo/src/transmog.rs:335-369 | the eager client's field is the last value the run gave it |
| EagerClient.CoalescingRefinesEager | windows/turbo/src/transmog.rs:339-415 | on every clean run a field of any unit that exists, returning ones included, shows the last value given to it, except that a pending key stands for a zero and still shows an item |
| EagerClient.FlushSettles | windows/turbo/src/win/transmog.rs:431-479 | when every pending entry has aged, one flush empties the table and makes every field of the units that exist eager |
| EagerClient.StaleFieldsAreYoung | windows/turbo/src/transmog.rs:396-407 | right after a flush any field that is not eager was zeroed less than the window ago |
| EagerClient.FlickerIsInvisible | windows/turbo/src/transmog.rs:348-368 | a zero restored inside the window changes neither screen nor table |
| Stores.ZeroIsSwallowedIff | windows/turbo/src/transmog.rs:359-389 | a zero is swallowed exactly when the field shows an item and the table holds or can take the key, which is then pending with the new stamp and unit; otherwise the field is blank and the table as it was |
| Stores.SparedRun | windows/turbo/src/transmog.rs:339-415 | a pending key waits through any run that does not concern it, and changes neither that run nor its stores |
| Stores.BlinkCostsNothingIff | windows/turbo/src/transmog.rs:339-407 | whatever happens meanwhile to other fields, the write that ends a swallowed zero is swallowed exactly when it comes less than 100 ms later with the value still shown; then the two have made no store and left no trace, otherwise exactly one store, of the new value |
| Stores.UnheldWritesLand | windows/turbo/src/transmog.rs:348-352 | a nonzero write of a key that is not pending is stored |
| Stores.UnkeyedWritesLand | windows/turbo/src/win/transmog.rs:272-277 | writes of GUIDs the table cannot key are stored and leave it alone |
| Stores.NeverMoreStores | windows/turbo/src/transmog.rs:335-415 | on every run the stores made and still owed are at most the writes of the server |
| Adapter.Adapter.EnsureBound | windows/turbo/src/win/transmog.rs:208-238 | whether the object written to is the player, with the mirrors re-read or dropped exactly when the binding does not already name it |
| Adapter.Adapter.Rebind | windows/turbo/src/win/transmog.rs:177-206 | the mirrors take the live fields and equipped GUIDs of the player's object, or the binding is dropped |
| Adapter.Adapter.VisibleWrite | windows/turbo/src/win/transmog.rs:265-299 | the whole hook is the routed step: player or unit path, verdict, descriptors and binding; it answers true exactly for the writes that step swallows, and any other write lands |
| Adapter.Adapter.PlayerVisibleWrite | windows/turbo/src/win/transmog.rs:301-338 | on the player's path the descriptor follows the verdict and nothing but that slot's mirror changes |
| Adapter.Adapter.InvGuidWrite | windows/turbo/src/win/transmog.rs:363-382 | the routed step for an inventory GUID dword, applying a parked zero first when asked |
| Adapter.Adapter.UnitVisibleWrite | windows/turbo/src/win/transmog.rs:272-299 | the unit path is the run-level write step, including GUIDs it cannot key; a swallowed write leaves the descriptor alone |
| Adapter.Adapter.Flush | windows/turbo/src/win/transmog.rs:431-479 | the scene-end flush is the routed flush: every aged zero applied, the mirrors expired, and surviving affected units named once each, all of them unless the cap is reached |
| Routing.PlayerPathIff | windows/turbo/src/win/transmog.rs:218-238 | a write takes the player's path exactly when it is to the bound object or to the active player, and binds anew exactly in the second case alone |
| Routing.BoundIsAPlayer | windows/turbo/src/win/transmog.rs:177-238 | on every run the mirrors stay bound to what they were, to nothing, or to an active player some call has found |
| Routing.SeparateUnlessHazard | windows/turbo/src/win/transmog.rs:218-299 | a step keeps the unit table off the bound player exactly when it meets neither guard: binding a player with a zero still pending, or a zero slipping to the table while the token does not resolve |
| Routing.SeparateThroughoutIffSafe | windows/turbo/src/win/transmog.rs:218-299 | a run does so at every point exactly when it never meets a guard |
| Routing.FlushSparesPlayer | windows/turbo/src/win/transmog.rs:431-479 | while separate, a flush leaves every field of the bound player alone |
| Routing.BindingIsMirrored | windows/turbo/src/win/transmog.rs:181-197 | binding a found player is the mirror model's binding in every slot, and the next write to that object needs no binding |
| Routing.LostPlayerIsUnbound | windows/turbo/src/win/transmog.rs:181-206 | a player whose object cannot be found is unbound, with the mirrors as they were |
| Routing.PlayerWriteIsMirrored | windows/turbo/src/win/transmog.rs:301-338 | a routed player write is the mirror model's write in its slot and nothing in the others |
| Routing.PlayerGuidIsMirrored | windows/turbo/src/win/transmog.rs:363-382 | likewise for a GUID half |
| Routing.FlushIsExpiry | windows/turbo/src/win/transmog.rs:444-445 | while separate, a flush is an expiry to every slot of the bound player |
| Routing.UnresolvedPlayerLosesItem | windows/turbo/src/win/transmog.rs:218-299 | a run that blanks an item the server has restored to the player |
| Dct.CosineHalfTurn | windows/turbo/src/math/fmod_mp3.rs:451-462 | the half-turn symmetry, derived from the values at zero and a quarter turn and product-to-sum |
| Dct.CosinePeriod | windows/turbo/src/math/fmod_mp3.rs:451-462 | the period, derived likewise |
| Dct.EvenRows | windows/turbo/src/math/fmod_mp3.rs:145-176 | for every even size, even rows are the rows of the half-size transform of the plain fold |
| Dct.OddRows | windows/turbo/src/math/fmod_mp3.rs:145-176 | for every even size, an odd row is the sum of two neighbouring half-size rows of the twiddled fold |
| Dct.PastEnd | windows/turbo/src/math/fmod_mp3.rs:229-244 | the row one past the end is zero, which ends each difference chain |
| Dct.FastIsDirect | windows/turbo/src/math/fmod_mp3.rs:126-245 | for every power-of-two size, whatever the quarter turn counts, the factored transform is the direct cosine sum |
| Dct.OppositeRows | windows/turbo/src/math/fmod_mp3.rs:451-462 | rows m and 64 - m of the 32-point transform are opposite, so stored rows are rows of the standard's matrix |
| Synthesis.Fold | windows/turbo/src/math/fmod_mp3.rs:145-165 | one butterfly stage computes the plain and the twiddled fold |
| Synthesis.FoldQuad | windows/turbo/src/math/fmod_mp3.rs:182-198 | the six combinations of a quad are its five transform rows |
| Synthesis.FoldOct | windows/turbo/src/math/fmod_mp3.rs:167-206 | stages 3 to 5 yield the nine rows of an octet |
| Synthesis.FoldHalf | windows/turbo/src/math/fmod_mp3.rs:155-206 | stages 2 to 5 yield the seventeen rows of a half |
| Synthesis.TailIsRows | windows/turbo/src/math/fmod_mp3.rs:208-244 | the 33 unrolled sums are the 33 expanded rows, outward from row sixteen |
| Synthesis.Dct64 | windows/turbo/src/math/fmod_mp3.rs:126-245 | `out0[16i]` is row 16 - i and `out1[16i]` row 16 + i of the direct sum, and only the stride-16 lanes change |
| Antialias.OwnedLanes | windows/turbo/src/math/fmod_mp3.rs:66-78 | each lane belongs to at most one butterfly |
| Antialias.OneMore | windows/turbo/src/math/fmod_mp3.rs:66-78 | one more butterfly reads two original values and changes its own two lanes |
| Antialias.LanePair | windows/turbo/src/math/fmod_mp3.rs:68-76 | the two lanes of a finished butterfly hold its outputs from original values |
| Antialias.PassByLanes | windows/turbo/src/math/fmod_mp3.rs:66-78 | the whole pass in the standard's terms: both outputs of each butterfly as sums of products of original values, and every lane farther than eight from a boundary unchanged |
| Antialias.AliasReduce | windows/turbo/src/math/fmod_mp3.rs:43-79 | the in-place pass is the simultaneous one for any number of boundaries: the lane below gets `bu * cs - bd * ca`, the lane above `bd * cs + bu * ca`, from original values, and no other lane changes |
| Antialias.EnergyConserved | windows/turbo/src/math/fmod_mp3.rs:68-76 | with rotation coefficients the sum of squares of the buffer is conserved |
| Antialias.PassUndone | windows/turbo/src/math/fmod_mp3.rs:68-76 | running the pass with negated `ca` restores the buffer |
| Ftol.TruncIsUnique | unix/shared/src/ftol.rs:89-102 | truncation toward zero is the one integer no farther from zero within one of the value |
| Ftol.ImplicitBitIsDisjoint | unix/shared/src/ftol.rs:42-58 | on 32-bit words, joining the implicit bit is adding it and the exponent field is a quotient |
| Ftol.ShiftsAreExact | unix/shared/src/ftol.rs:58-64 | neither shift loses bits or leaves the signed range, so no negation overflows |
| Ftol.WideIsExact | unix/shared/src/ftol.rs:41-64 | the shift path alone is exact truncation, or the indefinite value, on every pattern |
| Ftol.HandoverIsSeamless | unix/shared/src/ftol.rs:30-39 | wherever the narrow convert answers it answers as the shift path would |
| Ftol.FtolIsExact | unix/shared/src/ftol.rs:29-65 | all 2^64 patterns convert exactly |
| Ftol.FtolTruncates | unix/shared/src/ftol.rs:29-65 | the same as bounds: truncated when that fits a signed 64-bit word, its minimum for NaN, infinities and out-of-range values |
| Boxes.Clip | windows/turbo/src/math/aabb.rs:241-270 | a rejection misses the box; otherwise each axis says whether the start is outside its slab and which plane is entered |
| Boxes.EntryIsFirst | windows/turbo/src/math/aabb.rs:276-288 | whatever lies past an entered plane lies past its entry parameter |
| Boxes.CandidateOnFace | windows/turbo/src/math/aabb.rs:290-304 | the latest entry is a parameter of the segment on a face of the box |
| Boxes.CandidateInside | windows/turbo/src/math/aabb.rs:290-304 | if a point of the segment is in the box, so is the candidate |
| Boxes.Candidate | windows/turbo/src/math/aabb.rs:290-304 | both together |
| Boxes.Validate | windows/turbo/src/math/aabb.rs:306-325 | the candidate is accepted exactly when its other two coordinates are within the grown box |
| Boxes.IntersectSegment | windows/turbo/src/math/aabb.rs:222-326 | any point of the segment in the box gives 1; for an ordered box 1 gives a point in the box grown by 1e-5 |
| Boxes.TransformBy3x3 | windows/turbo/src/math/aabb.rs:513-537 | the returned box encloses every prior point carried along by the image of any source point, and for an ordered prior box it is the least box that does |
| Boxes.TransformCovers | windows/turbo/src/math/aabb.rs:513-537 | every prior point displaced by the image of a source point lies in the result |
| Boxes.TransformIsTight | windows/turbo/src/math/aabb.rs:513-537 | each of the six faces is attained by the image of a source corner |
| Boxes.ResultEncloses | windows/turbo/src/math/aabb.rs:513-537 | accumulated faces enclose all carried points |
| Boxes.ResultIsLeast | windows/turbo/src/math/aabb.rs:513-537 | every box that encloses as much holds the result |
| Boxes.ImageOfAxes | windows/turbo/src/math/aabb.rs:513-537 | each matrix row is the image of one source axis |
| Frustum.OutcodeBits | windows/turbo/src/math/frustum.rs:45-55 | the mask has a plane's bit exactly when the point is behind that plane |
| Frustum.PlaneEquation | windows/turbo/src/math/frustum.rs:45-55 | the distance is the plane equation of its four numbers |
| Frustum.ClassifyPoint | windows/turbo/src/math/frustum.rs:39-66 | the mask's bits are the failing planes, and the first result is the bit of the highest one, or 0 |
| Frustum.DistOfMix | windows/turbo/src/math/frustum.rs:91-96 | the distance of a convex combination is the combination of the distances |
| Frustum.TriangleBeyondIsItsCorners | windows/turbo/src/math/frustum.rs:73-120 | a whole triangle is behind a plane exactly when its corners are |
| Frustum.CullTriangle | windows/turbo/src/math/frustum.rs:73-120 | rejected exactly when every convex combination of the vertices is behind one plane |
| Frustum.BoxBeyondIsItsCorner | windows/turbo/src/math/frustum.rs:1258-1295 | a whole ordered box is beyond a plane exactly when its positive vertex is |
| Frustum.CullBox | windows/turbo/src/math/frustum.rs:1204-1298 | an ordered box is rejected exactly when all its points are beyond one plane; a kept one reaches every plane |
| Frustum.DistOfWorld | windows/turbo/src/math/frustum.rs:582-620 | world distance is the local normal's product plus a part that does not depend on the point |
| Frustum.WorldOfAxes | windows/turbo/src/math/frustum.rs:565-620 | each matrix row is the direction of one of the box's own axes, the translation its origin |
| Frustum.TestOrientedBox | windows/turbo/src/math/frustum.rs:565-626 | for any 3x3 matrix and translation, rejected exactly when the whole carried box is behind one plane |
| Frustum.CauchySchwarz | windows/turbo/src/math/frustum.rs:959-976 | the product of two vectors squared is at most the product of their squared lengths |
| Frustum.BallBeyondIsItsPole | windows/turbo/src/math/frustum.rs:965-974 | for a unit normal the radius comparison says exactly that the whole ball is behind the plane |
| Frustum.TestSphere | windows/turbo/src/math/frustum.rs:959-976 | with unit normals, rejected exactly when the whole ball is behind one plane |
| WorldText.OrderIsIrrelevant | windows/turbo/src/worldtext.rs:231-261 | the displacement depends on the set of blockers only |
| WorldText.ClearTextStays | windows/turbo/src/worldtext.rs:231-261 | text already clear of its blockers does not move again |
| WorldText.IntersectIsSharedPixel | windows/turbo/src/worldtext.rs:54-59 | rects that cover any pixels intersect exactly when some pixel is in both |
| WorldText.MovingLeavesFewer | windows/turbo/src/worldtext.rs:237-261 | a move past a blocker leaves strictly fewer ahead and never brings one back, so the rescan ends |
| WorldText.FarthestRoom | windows/turbo/src/worldtext.rs:243-251 | one scan finds the largest travel any blocker that is hit asks for |
| WorldText.Floating.constructor | windows/turbo/src/worldtext.rs:154-173 | a new line is undisplaced and ready to tick, with travel distance and frame length at least one and the arc's side as asked |
| WorldText.Floating.Tick | windows/turbo/src/worldtext.rs:185-229 | ends exactly 342 frame lengths after its start; until then hides or draws, where (the curve's place moved by the accumulated displacement) and how opaque |
| WorldText.Floating.TravelsOneWay | windows/turbo/src/worldtext.rs:195-212 | a straight line starts on its anchor, keeps its columns and size, and travels monotonically one way: after a share of its 342 frames, that share of its travel distance with the fraction dropped |
| WorldText.Floating.StandsOnAnchor | windows/turbo/src/worldtext.rs:207-212 | a line is as wide and high as its text, up to the odd pixel, and a straight one is centred on its anchor |
| WorldText.Floating.SweepsCircle | windows/turbo/src/worldtext.rs:200-206 | an arc line moves on a circle through its anchor, centred level with it one radius to the side, the cosine giving the column and the sine the height |
| WorldText.Floating.DrawnWhereSwept | windows/turbo/src/worldtext.rs:200-212 | and is drawn there with the fractions dropped |
| WorldText.AlphaAt | windows/turbo/src/worldtext.rs:214-219 | a drawn line is never fully transparent and is fully opaque only until the fade starts |
| WorldText.FadesEvenly | windows/turbo/src/worldtext.rs:214-219 | opaque up to frame 234, then equal steps of 1/108 down to nothing at frame 342 |
| WorldText.FramesElapsed | windows/turbo/src/worldtext.rs:84-89 | whole frames since the start, none before it, up to the 32-bit limit |
| WorldText.Floating.MakeRoom | windows/turbo/src/worldtext.rs:263-276 | rect and displacement move together along the line's direction |
| WorldText.Floating.AvoidRects | windows/turbo/src/worldtext.rs:237-261 | terminates for any blockers with the least displacement at which the bounds hit none |
| WorldText.RedrawIsStable | windows/turbo/src/worldtext.rs:185-261 | ticking again at the same instant and avoiding again draws the line at the same place |
| FarHeap.OfferKeepsNearest | windows/turbo/src/math/boundsfit.rs:546-612 | displacing the farthest for a strictly nearer one keeps the nearest of everything offered |
| FarHeap.KeptKeysAreSmallest | windows/turbo/src/math/boundsfit.rs:546-612 | under every threshold the heap holds as many keys as were offered there, up to its capacity |
| FarHeap.RootIsLargest | windows/turbo/src/math/boundsfit.rs:586-587 | the root of a heap has the largest key |
| FarHeap.Raise | windows/turbo/src/math/boundsfit.rs:565-579 | one step of sifting up moves the only possible violation to the parent |
| FarHeap.Lower | windows/turbo/src/math/boundsfit.rs:588-608 | one step of sifting toward the larger child moves the only possible violation to that child |
| FarHeap.Heap.SiftUp | windows/turbo/src/math/boundsfit.rs:565-583 | an appended entry settles: heap order, same entries, key and handle together |
| FarHeap.Heap.SiftDown | windows/turbo/src/math/boundsfit.rs:586-611 | a replacement for the root settles: heap order, the old root gone, nothing else changed |
| FarHeap.Heap.AddObject | windows/turbo/src/math/boundsfit.rs:562-612 | keeps the nearest of everything ever offered, paired with the objects they were offered with, as a max-heap; a full heap is not touched by an object no nearer than its root |
| Thunks.RegArgs | windows/turbo/build.rs:453-481 | exactly the registers settled by recognised types alone, each with its argument |
| Thunks.RecognisedTypes | windows/turbo/build.rs:438-451 | the generator recognises exactly the floats and the integers and pointers of one machine word |
| Thunks.ClaimedIff | windows/turbo/build.rs:453-481 | a register is claimed for an argument exactly when the convention puts it there, it is a machine word and everything before it is one or a float; the convention is stated apart from the generator, by type widths |
| Thunks.ClaimsAreReal | windows/turbo/build.rs:453-481 | under the convention as stated by type widths, a claimed register carries its argument whatever unsettled types use up |
| Thunks.Saves | windows/turbo/build.rs:669-672 | every preserved register, once and in capture order |
| Thunks.EmitThunk | windows/turbo/build.rs:664-783 | no thunk exactly when nothing is preserved or interposed; a body captures what no parameter holds and restores every preserved register |
| Thunks.ReturnConvention | windows/turbo/build.rs:655-659 | an answer is in EAX unless it is void or a float, and the high half of an eight-byte integer in EDX |
| Thunks.ThunkKeepsContract | windows/turbo/build.rs:664-783 | for every adapter and argument list: one call with the same arguments and one breadcrumb when asked, the answer in EAX and EDX as its type says, every other preserved register at its incoming value |
| Thunks.CallKeepsLocals | windows/turbo/build.rs:738-757 | the adapter gets the parameters, and what was captured before the call is still at hand after it |
| Thunks.RestoreBringsBack | windows/turbo/build.rs:717-777 | after any call the restore puts every preserved register's incoming value back |
| Thunks.ReturnRegisterCannotBePreserved | windows/turbo/build.rs:656-672 | a preserved return register loses its incoming value under some adapter |
| Shims.OneOutcome | windows/turbo/build.rs:1690-1700 | running a shim has one outcome |
| Shims.St0ShimKeepsContract | windows/turbo/build.rs:1669-1700 | consumes ST(0) as the one argument, answer in EDX:EAX, ECX kept on request, both stacks balanced, caller's memory intact |
| Shims.PowShimKeepsContract | windows/turbo/build.rs:1801-1824 | consumes both operands, passes base then exponent, leaves one result, stack balanced, caller's memory intact |
| Shims.TapIsTransparent | windows/turbo/build.rs:1924-1950 | the observer gets the address of the first argument and the original is reached with stack, x87 stack, ECX and EDX as they arrived |
| LogWorker.InvStep | windows/turbo/src/log_worker.rs:102-239 | every atomic step of producers, start-up and worker keeps the invariant |
| LogWorker.EveryRunKeepsInv | windows/turbo/src/log_worker.rs:102-239 | every interleaving keeps it |
| LogWorker.HeldStep | windows/turbo/src/log_worker.rs:183-239 | no step forgets a record |
| LogWorker.QueuedStep | windows/turbo/src/log_worker.rs:102-116 | only clients queue, and while the worker lives nobody with a queued record has since seen the flag down |
| LogWorker.LoggingIsSafe | windows/turbo/src/log_worker.rs:102-239 | at most one worker, nothing written twice, program order per thread across the switch to queueing, nothing from the worker in its own queue, nothing lost before the worker dies |
| LogWorker.WorkerDrains | windows/turbo/src/log_worker.rs:222-239 | a living worker writes its message and the whole queue, oldest first |
| LogWorker.EverythingCanBeWritten | windows/turbo/src/log_worker.rs:222-239 | from any reachable state with a living worker its own steps bring every record made so far to the log |
| LogWorker.WorkerStarts | windows/turbo/src/log_worker.rs:192-210 | whatever clients and later callers do in between, a spawn that succeeds ends with the one worker running and the flag up, one that fails with neither |
| LogWorker.DeadForAReason | windows/turbo/src/log_worker.rs:192-220 | the worker is given up only after a failed spawn or a death |
| LogWorker.ClientCall | windows/turbo/src/log_worker.rs:102-116 | one client call, whatever others do between its two steps: the record goes to the back of the queue and nothing is written when the flag was up and the receiver is still there, otherwise it is written on the spot and nothing is queued |
| LogWorker.WorkerCall | windows/turbo/src/log_worker.rs:107-110 | the worker's own record is written on the spot, past its queue |
| LogWorker.WorkerDies | windows/turbo/src/log_worker.rs:214-220 | a death takes the flag down at once; exactly what is in hand or queued when the receiver goes is lost |
| Packing.Pack | windows/translate/src/queue.rs:172-178 | saturating lengths beside the concatenated bytes |
| Packing.Split | unix/translate-sys/swift/translate.swift:499-518 | each item's piece, cut at the running offset, reading only inside the packed bytes |
| Packing.OffsetSaturates | windows/translate/src/queue.rs:172-196 | saturated lengths add up to the true offset until it leaves 32 bits, and stay past it from there on |
| Packing.SplitUndoesPack | unix/translate-sys/swift/translate.swift:499-518 | a text comes back as itself exactly when it is nonempty and ends within the first 2^32 - 1 bytes, and what happens otherwise |
| Packing.PiecesAreText | unix/translate-sys/swift/translate.swift:499-518 | only nonempty UTF-8 is handed to the translator |
| Packing.SmallBatchesArriveWhole | unix/translate-sys/swift/translate.swift:499-518 | in a batch that fits 32 bits exactly the empty texts are left out |
| Packing.Collect | unix/translate-sys/swift/translate.swift:520-528 | translatable texts in order, with an index map that is a bijection onto their slots |
| Packing.RankFindsText | unix/translate-sys/swift/translate.swift:520-528 | an item's place in the batch holds its text |
| Translation.MapResponses | unix/translate-sys/swift/translate.swift:348-359 | each result is the last response tagged with its index, `Internal` when there is none; stray tags are ignored |
| Translation.WriteSlot | unix/translate-sys/swift/translate.swift:576-600 | a result is stored in its slot, or its size reported when too long, and no other slot changes |
| Translation.WriteBack | unix/translate-sys/swift/translate.swift:574-600 | every result lands in the slot its text came from; slots outside the batch keep their status |
| Translation.TranslateSync | unix/translate-sys/swift/translate.swift:466-608 | what the whole call leaves in the output arrays: untouched on an empty tag, else every slot as its piece and the session's reply say |
| Translation.ReadSlot | windows/translate/src/queue.rs:205-230 | the caller reads back what the slot holds, with the UTF-8 and status failures |
| Translation.TranslateGroup | windows/translate/src/queue.rs:164-232 | one completion per request, in order, each with its own id and outcome |
| Translation.LastAnswerIsAnAnswer | unix/translate-sys/swift/translate.swift:353-359 | a mapped text really is a response with that tag, and none is mapped only when no response has it |
| Translation.LaterAnswersOverride | unix/translate-sys/swift/translate.swift:353-359 | the last response with a tag is the one that counts |
| Translation.FailureReachesAll | unix/translate-sys/swift/translate.swift:574-600 | a session that fails, or does not answer in time, fails every text it was asked about in that way |
| Translation.SilenceIsInternal | unix/translate-sys/swift/translate.swift:348-351 | a text no response is tagged for is reported as an internal failure |
| Translation.OrderIsIrrelevant | unix/translate-sys/swift/translate.swift:341-359 | responses in any order give the same result in every slot |
| Translation.BatchingIsInvisible | windows/translate/src/queue.rs:164-232 | through a session that translates every text, in any order, each request completes as if translated alone |
| TranslateQueue.GroupByPair | windows/translate/src/queue.rs:145-162 | the linear-scan grouping is the recursive one |
| TranslateQueue.GroupsPartition | windows/translate/src/queue.rs:145-162 | each group is exactly its pair's requests in arrival order, pairs are distinct, groups nonempty, no request without a group |
| TranslateQueue.FlattenKeeps | windows/translate/src/queue.rs:145-162 | grouping neither adds nor drops a request |
| TranslateQueue.GroupingKeepsPairs | windows/translate/src/queue.rs:134-141 | concatenating the groups keeps every pair's requests and their order |
| TranslateQueue.TranslateBatch | windows/translate/src/queue.rs:134-141 | the completions sent for one batch are those of its groups, in order |
| TranslateQueue.InvStep | windows/translate/src/queue.rs:97-143 | every channel operation keeps the bounds, the per-pair order and the ids |
| TranslateQueue.RunsKeepInv | windows/translate/src/queue.rs:97-143 | every interleaving of callers and worker keeps them |
| TranslateQueue.EnqueueIsTakenIff | windows/translate/src/queue.rs:101-106 | a request is taken, behind all others, exactly when fewer than 128 are waiting |
| TranslateQueue.DrainCompleted | windows/translate/src/queue.rs:111-122 | the polling loop takes the oldest completions, as many as asked for or all there are |
| TranslateQueue.DrainHandsOver | windows/translate/src/queue.rs:111-122 | a drain hands those over in order, keeps the others and changes nothing else |
| TranslateQueue.EachRequestIsAnsweredOnce | windows/translate/src/queue.rs:97-143 | once the worker has caught up every accepted request has exactly one completion, with its own id, and one pair's completions come in the order its requests were accepted |
| TranslateQueue.WorkerAdvances | windows/translate/src/queue.rs:124-143 | until it has caught up the worker's next operation is possible and brings it closer |
| TranslateQueue.CatchesUp | windows/translate/src/queue.rs:124-143 | after any run the worker, left alone, can answer everything accepted |
| TranslateQueue.EverythingIsHandedBack | windows/translate/src/queue.rs:97-143 | with the worker at rest one poll of everything has handed back exactly one completion for each accepted request, in order within each language pair, and none is left |
| TranslateQueue.EveryAnswerIsRight | windows/translate/src/queue.rs:97-232 | whatever batches the interleaving makes, every completion is the one its request would have had alone, as long as each packed group keeps 32-bit offsets |
| ObjectLookup.Matches | windows/turbo/src/object_lookup.rs:62-83 | a node matches exactly when the words at 0x18, 0x30 and 0x34 are the low, low and high half, and the observer is told the visit and then the first of the three that differs |
| ObjectLookup.BucketIsEntry | windows/turbo/src/object_lookup.rs:33-35 | with a mask of ones the bucket is the entry, twelve bytes wide, whose number is the low half reduced to the table's size |
| ObjectLookup.ChainIsLaidOut | windows/turbo/src/object_lookup.rs:36-60 | the head is the bucket's third word, each link lies four bytes past the bucket's offset into the node, and live nodes are nonzero and even |
| ObjectLookup.FirstMatchIsStop | windows/turbo/src/object_lookup.rs:47-55 | a chain has one first match, so where a search stops is determined |
| ObjectLookup.Walk | windows/turbo/src/object_lookup.rs:36-56 | terminates on any finite chain at its first match or its end |
| ObjectLookup.LookupObserved | windows/turbo/src/object_lookup.rs:23-56 | the first live node matching both halves, else 0; an unset table answers 0 and is not traversed |
| ObjectLookup.VisitsAreMisses | windows/turbo/src/object_lookup.rs:62-83 | visits equal the three miss counts, plus one on a hit |
| ObjectLookup.WellFormedRepresents | windows/turbo/src/object_lookup.rs:23-83 | a table laid out soundly (chains of its own nodes, hash word equal to the low half, own bucket, unique keys) represents the map from key to node |
| ObjectLookup.NodesAreLive | windows/turbo/src/object_lookup.rs:58-60 | no node of such a table is null |
| ObjectLookup.FirstMatchIsMapLookup | windows/turbo/src/object_lookup.rs:23-56 | on a table that represents a map, the first match is the map's answer |
| ObjectLookup.Lookup | windows/turbo/src/object_lookup.rs:8-10 | on a well-formed table: the node that holds the GUID, and zero exactly when there is none |
| ObjectLookup.Typed | windows/turbo/src/object_lookup.rs:85-109 | resolves exactly the nonzero GUIDs of the table whose object's descriptor, found at offset 8, has a flag, at its own offset 8, in common with the mask |

## Left out

- Rounding, NaN polarity, signed zero and lane layout in the geometry and signal kernels: those kernels are modelled over the reals.
- Synthesis.Dct64: the 33 unrolled stores are a list of sums and a store loop, so their order among themselves is not modelled; `C` is a ghost parameter.
- Synthesis.FoldHalf: stage 2 is one fold per half, where the code interleaves the two halves in one loop.
- Coalescing.Coalescer.constructor: takes the bucket function as a parameter; every result holds for any, `UnitTable.UnitBucket` among them.
- Coalescing.Coalescer.SeenSlot: stamps are compared as plain numbers, as the code does, so after a clock wrap the entry it recycles need not be the oldest.
- Adapter.Adapter.Flush: runs as one step; the lock released between cells, the `PENDING` flag and a poisoned lock are not modelled.
- EagerClient.CoalescingRefinesEager: for clean runs, and for units that exist: while a unit is gone nothing is said of its fields. The exact condition of a clean step is in `EagerClient.RefinesStep`.
- Stores.BlinkCostsNothingIff: the occupancy of other keys' probe windows is a parameter of each event, so that the waiting key may fill the last cell of another key's window is not part of the comparison.
- Adapter.Adapter.VisibleWrite: an object without a descriptor reads as GUID 0, which is covered; a poisoned lock, the equipment rescan and the parked item write of a verdict are not modelled.
- Routing.SeparateUnlessHazard: writes to an item's own field (`item_write`) only park a value behind a mirror and are not among its events; `Coalescing.Coalescer.DeferItemWrite` covers them.
- Which family of fields a descriptor index belongs to (the index tests of `intercept_write`).
- Flicker.VerdictIsPlain: within one period of the 32-bit clock (49.7 days) since the first sighting kept; `Flicker.RestoredExactly` needs no such bound.
- WorldText.Floating.Tick: pixel coordinates are integers without 32-bit overflow, and the curve is computed over the reals.
- WorldText.Floating.TravelsOneWay: for straight lines; an arc's cosine and sine are parameters.
- The crit carousel and `max_overlap_height` of `worldtext.rs`.
- FarHeap.Heap.AddObject: keys are ordered reals, so the NaN branch of the sift test is not modelled; the capacity is a parameter.
- Boxes.IntersectSegment: comparisons with NaN bounds or parameters are not modelled.
- Frustum.TestSphere: the whole-ball statement is for unit normals and a nonnegative radius; the comparison itself is stated for all inputs.
- Frustum.CullBox: for a box with minimum above maximum only the range of the answer is stated, since such a box has no points.
- Portal clipping, dominant axis and the other frustum and box predicates, the dewindow, the 36-point transform, moments, lighting and trigonometric polynomials.
- Thunks.EmitThunk: the body is a list of statements; names, comments, diff and diagnostic text and the install steps are not modelled, and a breadcrumb is a statement that may overwrite every volatile register.
- Shims.St0ShimKeepsContract: x87 values are reals and the inner function respects the cdecl rules; flags and the x87 control word are not modelled.
- LogWorker.LoggingIsSafe: steps are sequentially consistent, filters and timed reports are not modelled; what is queued when the worker dies is lost, and counted as such.
- Translation.BatchingIsInvisible: sizes over 2^32 - 1 reported for an oversize result, language-tag normalisation and a bridge that does not reach the translator are not modelled.
- TranslateQueue.EveryAnswerIsRight: for runs whose packed groups stay within 2^32 - 1 bytes, which on the library's 32-bit target every group that fits in memory does; `Packing.SplitUndoesPack` says what happens to each text beyond that.
- TranslateQueue.InvStep: the worker thread does not die, so the closed-queue error of `enqueue` does not occur.
- ObjectLookup.Walk: the chain is finite; a cyclic chain would not terminate in the code either.
- Session restaging, window hosting and error mapping in `translate.swift`: the session is a function that replies with tagged responses, one failure for all, or nothing in time.
- Everything that reaches the host image, the operating system, Lua or files.
