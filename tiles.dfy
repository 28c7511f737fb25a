/**
 * The crate tile: one placed crate block. It knows which crate it is, whether it is open and
 * by whom, and which viewers currently see its floating text. Opening checks three guards,
 * consumes a key, announces the open chest and then either settles the reward at once
 * ("instant" mode) or hands over to a repeating roulette task (every other mode).
 */
module Tiles {
  import opened Wrappers
  import opened Text
  import opened Crates
  import opened Nbt
  import opened Host

  /** The placeholder in reward commands that stands for the opener's name. */
  const Placeholder := "{PLAYER}"
  /** The configured `crates.mode` that settles rewards within the opening call. */
  const InstantMode := "instant"
  /** Block event type of a chest's lid, and its data for open and closed. */
  const ChestLidEvent := 1
  const LidOpen := 1
  const LidClosed := 0
  /** The period, in ticks, of the roulette task. */
  const RoulettePeriod := 1

  /** Tag names written by the tile. */
  const CrateTypeTag := "CrateType"
  const IdTag := "id"
  const CustomNameTag := "CustomName"
  const ChestId := "Chest"
  const UnknownName := "Unknown"
  const CrateSuffix := " Crate"

  /** A tracked viewer of the floating text: the player and the particle shown to them. */
  datatype Viewer = Viewer(player: Player, particle: FloatingText)

  /** Which of the guards of an opening stops it, checked in this order. */
  datatype OpenGuardOutcome = NoCrate | AlreadyOpen | NoRoom(required: int) | Proceed

  /**
   * The guards of an opening. The inventory guard of the PHP code compares the occupied slots
   * with the size minus the drop count; it stops the opening exactly when the free slots are
   * fewer than the drops to be granted.
   */
  function OpenGuard(crateType: Option<Crate>, isOpen: bool, occupied: nat, size: nat): (g: OpenGuardOutcome)
    ensures g == NoCrate <==> crateType.None?
    ensures g == AlreadyOpen <==> crateType.Some? && isOpen
    ensures g.NoRoom? <==> crateType.Some? && !isOpen && size - occupied < crateType.value.dropCount
    ensures g.NoRoom? ==> g.required == crateType.value.dropCount
    ensures g == Proceed <==> crateType.Some? && !isOpen && size - occupied >= crateType.value.dropCount
  {
    if crateType.None? then NoCrate
    else if isOpen then AlreadyOpen
    else if occupied > size - crateType.value.dropCount then NoRoom(crateType.value.dropCount)
    else Proceed
  }

  /** The console commands dispatched for `commands`, each with the placeholder replaced. */
  function Dispatches(commands: seq<string>, name: string): seq<Effect>
  {
    if commands == [] then []
    else Dispatches(commands[..|commands| - 1], name)
         + [Dispatch(Replace(commands[|commands| - 1], Placeholder, name))]
  }

  /** Each command is dispatched once, at its own position, with the opener's name put in. */
  lemma {:induction false} DispatchesAt(commands: seq<string>, name: string)
    ensures |Dispatches(commands, name)| == |commands|
    ensures forall k :: 0 <= k < |commands| ==>
              Dispatches(commands, name)[k] == Dispatch(Replace(commands[k], Placeholder, name))
  {
    if commands != [] {
      var init := commands[..|commands| - 1];
      DispatchesAt(init, name);
      assert forall k :: 0 <= k < |init| ==> init[k] == commands[k];
    }
  }

  /** Dispatching two command lists one after the other is dispatching their concatenation. */
  lemma {:induction false} DispatchesAppend(a: seq<string>, b: seq<string>, name: string)
    ensures Dispatches(a + b, name) == Dispatches(a, name) + Dispatches(b, name)
    decreases |b|
  {
    if b == [] {
      assert a + b == a;
    } else {
      var init := b[..|b| - 1];
      DispatchesAppend(a, init, name);
      assert (a + b)[..|a + b| - 1] == a + init;
    }
  }

  lemma DispatchesSnoc(a: seq<string>, c: string, name: string)
    ensures Dispatches(a + [c], name) == Dispatches(a, name) + [Dispatch(Replace(c, Placeholder, name))]
  {
    assert (a + [c])[..|a|] == a;
  }

  /** A command without the placeholder is dispatched verbatim. */
  lemma DispatchVerbatim(commands: seq<string>, name: string, k: int)
    requires 0 <= k < |commands| && !Occurs(commands[k], Placeholder)
    ensures |Dispatches(commands, name)| == |commands|
    ensures Dispatches(commands, name)[k] == Dispatch(commands[k])
  {
    DispatchesAt(commands, name);
    ReplaceAbsent(commands[k], Placeholder, name);
  }

  /**
   * The placeholder is substituted where it stands: in a command `u + "{PLAYER}" + v` whose
   * `u` holds no placeholder, the dispatched text is `u`, the name, then `v` substituted in
   * turn.
   */
  lemma PlaceholderSubstituted(u: string, v: string, name: string)
    requires !Occurs(u, Placeholder)
    ensures Replace(u + Placeholder + v, Placeholder, name) == u + name + Replace(v, Placeholder, name)
  {
    ReplaceNext(u, Placeholder, v, name);
  }

  /** The spawn-data custom name: the crate's name, or "Unknown", followed by " Crate". */
  function CustomName(crateType: Option<Crate>): (r: string)
    ensures |r| >= |CrateSuffix| && r[|r| - |CrateSuffix|..] == CrateSuffix
    ensures r[..|r| - |CrateSuffix|] == if crateType.Some? then crateType.value.name else UnknownName
  {
    (if crateType.None? then UnknownName else crateType.value.name) + CrateSuffix
  }

  /** `usort` of the preview: sorts `a` in place into the stable descending order of chance. */
  method SortByChance(a: array<CrateItem>)
    modifies a
    ensures a[..] == SortDesc(old(a[..]))
  {
    ghost var orig := a[..];
    var i := 0;
    while i < a.Length
      invariant 0 <= i <= a.Length
      invariant a[..i] == SortDesc(orig[..i])
      invariant a[i..] == orig[i..]
    {
      assert a[i] == orig[i];
      InsertNext(a, i);
      assert orig[..i + 1][..i] == orig[..i];
      i := i + 1;
    }
    assert orig[..a.Length] == orig;
  }

  /** One step of the insertion sort: moves `a[i]` into the sorted prefix `a[..i]`. */
  method InsertNext(a: array<CrateItem>, i: int)
    requires 0 <= i < a.Length
    modifies a
    ensures a[..i + 1] == InsertDesc(old(a[..i]), old(a[i]))
    ensures a[i + 1..] == old(a[i + 1..])
  {
    ghost var sorted := a[..i];
    ghost var rest := a[i + 1..];
    var x := a[i];
    var j := ShiftGreater(a, i, x);
    a[j] := x;
    InsertDescPrefix(sorted, x, j);
    InsertDescAfter(sorted[..j], x);
    assert a[..i + 1] == sorted[..j] + [x] + sorted[j..] by {
      forall k | 0 <= k <= i
        ensures a[..i + 1][k] == (sorted[..j] + [x] + sorted[j..])[k]
      {
        if k < j {
          assert a[k] == sorted[k];
        } else if j < k {
          assert a[k] == sorted[k - 1];
        }
      }
    }
    assert a[i + 1..] == rest by {
      forall k | 0 <= k < a.Length - (i + 1)
        ensures a[i + 1..][k] == rest[k]
      {
      }
    }
  }

  /**
   * The inner loop of the insertion: moves the drops of `a[..i]` with a smaller chance than
   * `x` one slot to the right and answers the gap left for `x`.
   */
  method ShiftGreater(a: array<CrateItem>, i: int, x: CrateItem) returns (j: int)
    requires 0 <= i < a.Length
    modifies a
    ensures 0 <= j <= i
    ensures forall k :: 0 <= k < j ==> a[k] == old(a[k])
    ensures forall k :: j < k <= i ==> a[k] == old(a[k - 1])
    ensures forall k :: i < k < a.Length ==> a[k] == old(a[k])
    ensures forall k :: j <= k < i ==> old(a[k]).chance < x.chance
    ensures j > 0 ==> old(a[j - 1]).chance >= x.chance
    ensures (forall p, q :: 0 <= p < q < i ==> old(a[p]).chance >= old(a[q]).chance) ==>
              forall k :: 0 <= k < j ==> old(a[k]).chance >= x.chance
  {
    j := i;
    while j > 0 && a[j - 1].chance < x.chance
      invariant 0 <= j <= i
      invariant forall k :: 0 <= k < j ==> a[k] == old(a[k])
      invariant forall k :: j < k <= i ==> a[k] == old(a[k - 1])
      invariant forall k :: i < k < a.Length ==> a[k] == old(a[k])
      invariant forall k :: j <= k < i ==> old(a[k]).chance < x.chance
    {
      a[j] := a[j - 1];
      j := j - 1;
    }
    if forall p, q :: 0 <= p < q < i ==> old(a[p]).chance >= old(a[q]).chance {
      forall k | 0 <= k < j - 1
        ensures old(a[k]).chance >= x.chance
      {
        assert old(a[k]).chance >= old(a[j - 1]).chance;
      }
    }
  }

  /** The sum of the chances in `a`, added up in order. */
  method SumChances(a: array<CrateItem>) returns (total: real)
    ensures total == TotalChance(a[..])
  {
    total := 0.0;
    var i := 0;
    while i < a.Length
      invariant 0 <= i <= a.Length
      invariant total == TotalChance(a[..i])
    {
      assert a[..i + 1][..i] == a[..i];
      total := total + a[i].chance;
      i := i + 1;
    }
    assert a[..i] == a[..];
  }

  /**
   * Fills a fresh preview menu with the drops of `sorted`, one per slot and at most 54. The
   * percentage of the first shown drop divides by `total`, so a zero total with any drop to
   * show raises the division error and no menu is produced.
   */
  method FillPreview(sorted: array<CrateItem>, total: real) returns (menu: array?<Option<CrateItem>>)
    ensures menu == null <==> sorted.Length > 0 && total == 0.0
    ensures menu != null ==>
      fresh(menu) && menu.Length == MenuSize(sorted.Length) &&
      forall k :: 0 <= k < menu.Length ==>
        menu[k] == if k < sorted.Length && k < MaxPreviewItems then Some(sorted[k]) else None
  {
    var shown := new Option<CrateItem>[MenuSize(sorted.Length)](_ => None);
    var slot := 0;
    while slot < sorted.Length
      invariant 0 <= slot <= sorted.Length && slot <= MaxPreviewItems
      invariant slot > 0 ==> total != 0.0
      invariant forall k :: 0 <= k < shown.Length ==>
        shown[k] == if k < slot then Some(sorted[k]) else None
    {
      if slot > MaxPreviewItems - 1 {
        break;
      }
      if total == 0.0 {
        return null;
      }
      shown[slot] := Some(sorted[slot]);
      slot := slot + 1;
    }
    assert slot == sorted.Length || slot == MaxPreviewItems;
    return shown;
  }

  /** Runs `commands` as the console, in order, each with the opener's name put in. */
  method DispatchAll(server: Server, commands: seq<string>, name: string)
    modifies server
    ensures server.log == old(server.log) + Dispatches(commands, name)
  {
    var j := 0;
    assert commands[..0] == [];
    while j < |commands|
      invariant 0 <= j <= |commands|
      invariant server.log == old(server.log) + Dispatches(commands[..j], name)
    {
      DispatchesSnoc(commands[..j], commands[j], name);
      assert commands[..j + 1] == commands[..j] + [commands[j]];
      server.Emit(Dispatch(Replace(commands[j], Placeholder, name)));
      j := j + 1;
    }
    assert commands[..j] == commands;
  }

  /**
   * The instant reward of the drawn drops: for each draw in turn, its item is added when the
   * draw is of kind "item", then its commands are run.
   */
  method GrantDraws(inventory: Inventory, server: Server, name: string, draws: seq<CrateItem>)
    modifies inventory, server
    ensures inventory.received == old(inventory.received) + ItemGrants(draws)
    ensures server.log == old(server.log) + Dispatches(DrawCommands(draws), name)
    ensures inventory.keys == old(inventory.keys) && inventory.occupied == old(inventory.occupied)
  {
    var i := 0;
    while i < |draws|
      invariant 0 <= i <= |draws|
      invariant inventory.received == old(inventory.received) + ItemGrants(draws[..i])
      invariant server.log == old(server.log) + Dispatches(DrawCommands(draws[..i]), name)
      invariant inventory.keys == old(inventory.keys) && inventory.occupied == old(inventory.occupied)
    {
      GrantDraw(inventory, server, name, draws[i]);
      GrantStep(draws, i, name);
      i := i + 1;
    }
    assert draws[..i] == draws;
  }

  /** What the draws up to `i + 1` grant is what the draws up to `i` grant, then draw `i`'s share. */
  lemma GrantStep(draws: seq<CrateItem>, i: int, name: string)
    requires 0 <= i < |draws|
    ensures ItemGrants(draws[..i + 1]) ==
              ItemGrants(draws[..i]) + (if draws[i].kind == ItemKind then [draws[i].item] else [])
    ensures Dispatches(DrawCommands(draws[..i + 1]), name) ==
              Dispatches(DrawCommands(draws[..i]), name) + Dispatches(draws[i].commands, name)
  {
    assert draws[..i + 1] == draws[..i] + [draws[i]];
    LastDraw(draws[..i], draws[i]);
    DispatchesAppend(DrawCommands(draws[..i]), draws[i].commands, name);
  }

  /** The reward of one draw: its item when it is of kind "item", then its commands. */
  method GrantDraw(inventory: Inventory, server: Server, name: string, drop: CrateItem)
    modifies inventory, server
    ensures inventory.received == old(inventory.received) + (if drop.kind == ItemKind then [drop.item] else [])
    ensures server.log == old(server.log) + Dispatches(drop.commands, name)
    ensures inventory.keys == old(inventory.keys) && inventory.occupied == old(inventory.occupied)
  {
    if drop.kind == ItemKind {
      inventory.AddItem(drop.item);
    }
    DispatchAll(server, drop.commands, name);
  }

  /** One placed crate block. */
  class CrateTile {
    /** The world the block is in. */
    const world: World
    /** The crate name as stored; null until a crate type is set or loaded. */
    var crateName: Option<string>
    /** The crate definition, null when none is set or the stored name is not in the catalog. */
    var crateType: Option<Crate>
    var isOpen: bool
    var currentPlayer: Player?
    /** Tracked floating-text viewers, keyed by player name. */
    var floatingTextParticles: map<string, Viewer>
    /** The host's flag for a tile that has been closed (removed). */
    var closed: bool

    ghost predicate Valid()
      reads this
    {
      (isOpen <==> currentPlayer != null) &&
      (crateType.Some? ==> crateName == Some(crateType.value.name)) &&
      (forall k :: k in floatingTextParticles ==> floatingTextParticles[k].player.name == k)
    }

    constructor (world: World)
      ensures Valid() && this.world == world
      ensures crateName == None && crateType == None
      ensures !isOpen && currentPlayer == null
      ensures floatingTextParticles == map[] && !closed
    {
      this.world := world;
      crateName, crateType := None, None;
      isOpen, currentPlayer := false, null;
      floatingTextParticles, closed := map[], false;
    }

    function GetCrateType(): (c: Option<Crate>)
      requires Valid()
      reads this
      ensures c.Some? ==> crateName == Some(c.value.name)
    {
      crateType
    }

    predicate IsOpen()
      requires Valid()
      reads this
      ensures IsOpen() <==> currentPlayer != null
    {
      isOpen
    }

    function GetCurrentPlayer(): (p: Player?)
      requires Valid()
      reads this
      ensures p != null <==> isOpen
    {
      currentPlayer
    }

    method SetCrateType(crate: Crate)
      requires Valid()
      modifies this
      ensures Valid()
      ensures crateName == Some(crate.name) && crateType == Some(crate)
      ensures isOpen == old(isOpen) && currentPlayer == old(currentPlayer)
      ensures floatingTextParticles == old(floatingTextParticles) && closed == old(closed)
    {
      crateName := Some(crate.name);
      crateType := Some(crate);
    }

    /**
     * A player opens the crate with a key. `mode` is the configured `crates.mode`; `draws`
     * are the drops `getDrop` returns for the crate's drop count (used in "instant" mode).
     */
    method OpenCrate(player: Player, server: Server, mode: string, draws: seq<CrateItem>)
      requires Valid()
      modifies this, player.inventory, server
      ensures Valid()
      ensures crateName == old(crateName) && crateType == old(crateType)
      ensures floatingTextParticles == old(floatingTextParticles) && closed == old(closed)
      ensures player.inventory.occupied == old(player.inventory.occupied)
      // a guard stops the opening: nothing changes but the tip
      ensures var g := OpenGuard(old(crateType), old(isOpen), old(player.inventory.occupied), player.inventory.size);
        g != Proceed ==>
          isOpen == old(isOpen) && currentPlayer == old(currentPlayer) &&
          player.inventory.keys == old(player.inventory.keys) &&
          player.inventory.received == old(player.inventory.received)
      ensures var g := OpenGuard(old(crateType), old(isOpen), old(player.inventory.occupied), player.inventory.size);
        g == NoCrate ==> server.log == old(server.log)
      ensures var g := OpenGuard(old(crateType), old(isOpen), old(player.inventory.occupied), player.inventory.size);
        g == AlreadyOpen ==> server.log == old(server.log) + [Tip(player, CurrentlyOpenedTip)]
      ensures var g := OpenGuard(old(crateType), old(isOpen), old(player.inventory.occupied), player.inventory.size);
        g.NoRoom? ==> server.log == old(server.log) + [Tip(player, InventoryFullTip(g.required))]
      // every guard passes: one key unit is consumed and the lid opens
      ensures var g := OpenGuard(old(crateType), old(isOpen), old(player.inventory.occupied), player.inventory.size);
        g == Proceed ==>
          player.inventory.keys == (if old(player.inventory.keys) > 0 then old(player.inventory.keys) - 1 else 0)
      // instant mode: rewards are settled and the crate is closed again
      ensures var g := OpenGuard(old(crateType), old(isOpen), old(player.inventory.occupied), player.inventory.size);
        g == Proceed && mode == InstantMode ==>
          !isOpen && currentPlayer == null &&
          player.inventory.received == old(player.inventory.received) + ItemGrants(draws) &&
          server.log == old(server.log)
            + [BlockEvent(this, ChestLidEvent, LidOpen), BlockEvent(this, ChestLidEvent, LidClosed)]
            + Dispatches(DrawCommands(draws) + old(crateType).value.commands, player.name)
      // every other mode: the crate stays open for the roulette task
      ensures var g := OpenGuard(old(crateType), old(isOpen), old(player.inventory.occupied), player.inventory.size);
        g == Proceed && mode != InstantMode ==>
          isOpen && currentPlayer == player &&
          player.inventory.received == old(player.inventory.received) &&
          server.log == old(server.log)
            + [BlockEvent(this, ChestLidEvent, LidOpen), ScheduleRoulette(this, RoulettePeriod)]
    {
      if crateType.None? {
        return;
      }
      var crate := crateType.value;
      if isOpen {
        server.Emit(Tip(player, CurrentlyOpenedTip));
        return;
      }
      var inventory := player.inventory;
      if inventory.occupied > inventory.size - crate.dropCount {
        server.Emit(Tip(player, InventoryFullTip(crate.dropCount)));
        return;
      }

      inventory.RemoveKey();
      server.Emit(BlockEvent(this, ChestLidEvent, LidOpen));
      isOpen := true;
      currentPlayer := player;

      if mode == InstantMode {
        CloseCrate(server);
        GrantDraws(inventory, server, player.name, draws);
        DispatchAll(server, crate.commands, player.name);
        DispatchesAppend(DrawCommands(draws), crate.commands, player.name);
      } else {
        server.Emit(ScheduleRoulette(this, RoulettePeriod));
      }
    }

    /** Closes the crate; a closed crate is left as it is. */
    method CloseCrate(server: Server)
      requires Valid()
      modifies this, server
      ensures Valid()
      ensures !isOpen && currentPlayer == null
      ensures server.log == old(server.log) + (if old(isOpen) then [BlockEvent(this, ChestLidEvent, LidClosed)] else [])
      ensures crateName == old(crateName) && crateType == old(crateType)
      ensures floatingTextParticles == old(floatingTextParticles) && closed == old(closed)
    {
      if !isOpen {
        return;
      }
      server.Emit(BlockEvent(this, ChestLidEvent, LidClosed));
      isOpen := false;
      currentPlayer := null;
    }

    /**
     * The preview menu: the crate's drops in descending order of chance, at most 54 of them,
     * one per slot, in a single chest for up to 27 drops and a double chest above. `total` is
     * the sum of the chances (the denominator of the shown percentages). No menu is sent when
     * there is no crate type, or when a drop is shown while the total is zero (the percentage
     * then divides by zero).
     */
    method PreviewCrate() returns (menu: array?<Option<CrateItem>>, total: real)
      ensures crateType.None? ==> menu == null && total == 0.0
      ensures crateType.Some? ==> total == TotalChance(crateType.value.drops)
      ensures crateType.Some? ==>
        (menu == null <==> |crateType.value.drops| > 0 && TotalChance(crateType.value.drops) == 0.0)
      ensures menu != null ==>
        fresh(menu) && crateType.Some? &&
        menu.Length == MenuSize(|crateType.value.drops|) &&
        forall k :: 0 <= k < menu.Length ==>
          menu[k] == if k < |crateType.value.drops| && k < MaxPreviewItems
                     then Some(SortDesc(crateType.value.drops)[k]) else None
    {
      if crateType.None? {
        return null, 0.0;
      }
      var drops := crateType.value.drops;
      var sorted := new CrateItem[|drops|](k requires 0 <= k < |drops| => drops[k]);
      assert sorted[..] == drops;
      SortByChance(sorted);
      SortDescCorrect(drops);
      total := SumChances(sorted);
      menu := FillPreview(sorted, total);
    }

    /** The spawn data of the block: a chest with the crate's custom name. */
    method AddAdditionalSpawnData(nbt: CompoundTag)
      modifies nbt
      ensures nbt.tags == WithString(WithString(old(nbt.tags), IdTag, ChestId), CustomNameTag, CustomName(crateType))
    {
      nbt.SetString(IdTag, ChestId);
      nbt.SetString(CustomNameTag, CustomName(crateType));
    }

    /** `p` is online and in this tile's world. */
    predicate Present(p: Player)
      reads p
    {
      p.online && p.world == world
    }

    /** The floating text is maintained: the tile is live, has a crate and the text is non-empty. */
    predicate ShowsText()
      reads this
    {
      !closed && crateType.Some? && crateType.value.floatingText != ""
    }

    /** The viewer map is in step with the world: every entry is present, every player tracked. */
    ghost predicate InStep()
      reads this, world, world.players, set k | k in floatingTextParticles :: floatingTextParticles[k].player
    {
      (forall k :: k in floatingTextParticles ==> Present(floatingTextParticles[k].player)) &&
      (forall p :: p in world.players ==> p.name in floatingTextParticles)
    }

    /** The per-tick refresh of the floating-text viewers; answers whether the tile is still live. */
    method OnUpdate() returns (alive: bool)
      requires Valid()
      modifies this
      ensures Valid()
      ensures alive == !closed
      ensures crateName == old(crateName) && crateType == old(crateType) && closed == old(closed)
      ensures isOpen == old(isOpen) && currentPlayer == old(currentPlayer)
      ensures !ShowsText() ==> floatingTextParticles == old(floatingTextParticles)
      // entries of viewers still present are kept as they were
      ensures ShowsText() ==>
        forall k :: k in old(floatingTextParticles) && Present(old(floatingTextParticles)[k].player) ==>
          k in floatingTextParticles && floatingTextParticles[k] == old(floatingTextParticles)[k]
      // every player of the world is tracked under their name
      ensures ShowsText() ==> forall p :: p in world.players ==> p.name in floatingTextParticles
      // every entry is a kept one or a fresh particle for a player of the world
      ensures ShowsText() ==>
        forall k :: k in floatingTextParticles ==>
          (k in old(floatingTextParticles) && Present(old(floatingTextParticles)[k].player) &&
           floatingTextParticles[k] == old(floatingTextParticles)[k]) ||
          (floatingTextParticles[k].player in world.players &&
           fresh(floatingTextParticles[k].particle) &&
           floatingTextParticles[k].particle.text == crateType.value.floatingText)
      ensures ShowsText() && HostConsistent(world) ==> InStep()
      ensures ShowsText() && old(InStep()) ==> floatingTextParticles == old(floatingTextParticles)
    {
      if ShowsText() {
        DropDeparted();
        AddArrivals(crateType.value.floatingText);
      }
      alive := !closed;
    }

    /** Forgets the viewers that went offline or left the tile's world. */
    method DropDeparted()
      requires Valid()
      modifies this
      ensures Valid()
      ensures crateName == old(crateName) && crateType == old(crateType) && closed == old(closed)
      ensures isOpen == old(isOpen) && currentPlayer == old(currentPlayer)
      ensures forall k :: k in floatingTextParticles <==>
                k in old(floatingTextParticles) && Present(old(floatingTextParticles)[k].player)
      ensures forall k :: k in floatingTextParticles ==>
                floatingTextParticles[k] == old(floatingTextParticles)[k]
    {
      var pending := floatingTextParticles.Keys;
      while pending != {}
        invariant pending <= old(floatingTextParticles).Keys
        invariant forall k :: k in floatingTextParticles <==>
                    k in old(floatingTextParticles) &&
                    (k in pending || Present(old(floatingTextParticles)[k].player))
        invariant forall k :: k in floatingTextParticles ==>
                    floatingTextParticles[k] == old(floatingTextParticles)[k]
        invariant crateType == old(crateType) && crateName == old(crateName) && closed == old(closed)
        invariant isOpen == old(isOpen) && currentPlayer == old(currentPlayer) && Valid()
        decreases pending
      {
        var k :| k in pending;
        var viewer := floatingTextParticles[k];
        if !viewer.player.online || viewer.player.world != world {
          floatingTextParticles := floatingTextParticles - {k};
        }
        pending := pending - {k};
      }
    }

    /** Starts showing `text` to every player of the world who is not tracked yet. */
    method AddArrivals(text: string)
      requires Valid()
      modifies this
      ensures Valid()
      ensures crateName == old(crateName) && crateType == old(crateType) && closed == old(closed)
      ensures isOpen == old(isOpen) && currentPlayer == old(currentPlayer)
      ensures forall k :: k in old(floatingTextParticles) ==>
                k in floatingTextParticles && floatingTextParticles[k] == old(floatingTextParticles)[k]
      ensures forall p :: p in world.players ==> p.name in floatingTextParticles
      ensures forall k :: k in floatingTextParticles ==>
                (k in old(floatingTextParticles) && floatingTextParticles[k] == old(floatingTextParticles)[k]) ||
                (floatingTextParticles[k].player in world.players &&
                 fresh(floatingTextParticles[k].particle) &&
                 floatingTextParticles[k].particle.text == text)
      ensures (forall p :: p in world.players ==> p.name in old(floatingTextParticles)) ==>
                floatingTextParticles == old(floatingTextParticles)
    {
      var players := world.players;
      var i := 0;
      while i < |players|
        invariant 0 <= i <= |players|
        invariant forall k :: k in old(floatingTextParticles) ==>
                    k in floatingTextParticles && floatingTextParticles[k] == old(floatingTextParticles)[k]
        invariant forall j :: 0 <= j < i ==> players[j].name in floatingTextParticles
        invariant forall k :: k in floatingTextParticles ==>
                    (k in old(floatingTextParticles) && floatingTextParticles[k] == old(floatingTextParticles)[k]) ||
                    (floatingTextParticles[k].player in players[..i] &&
                     fresh(floatingTextParticles[k].particle) &&
                     floatingTextParticles[k].particle.text == text)
        invariant (forall p :: p in players ==> p.name in old(floatingTextParticles)) ==>
                    floatingTextParticles == old(floatingTextParticles)
        invariant crateType == old(crateType) && crateName == old(crateName) && closed == old(closed)
        invariant isOpen == old(isOpen) && currentPlayer == old(currentPlayer) && Valid()
      {
        var player := players[i];
        if player.name !in floatingTextParticles {
          var particle := new FloatingText(text);
          floatingTextParticles := floatingTextParticles[player.name := Viewer(player, particle)];
        }
        i := i + 1;
      }
      assert players[..i] == players;
    }

    /** Loads the crate name and resolves it in the catalog; fails when no string is stored. */
    method ReadSaveData(nbt: CompoundTag, catalog: Catalog) returns (ok: bool)
      requires Valid() && CatalogWellFormed(catalog)
      modifies this
      ensures Valid()
      ensures ok <==> StringAt(nbt.tags, CrateTypeTag).Success?
      ensures ok ==>
        crateName == Some(StringAt(nbt.tags, CrateTypeTag).value) &&
        crateType == GetCrate(catalog, crateName.value)
      ensures !ok ==> crateName == old(crateName) && crateType == old(crateType)
      ensures isOpen == old(isOpen) && currentPlayer == old(currentPlayer)
      ensures floatingTextParticles == old(floatingTextParticles) && closed == old(closed)
    {
      var stored := StringAt(nbt.tags, CrateTypeTag);
      if stored.Failure? {
        return false;
      }
      crateName := Some(stored.value);
      crateType := GetCrate(catalog, stored.value);
      return true;
    }

    /** Stores the crate name; a tile whose name was never set cannot store it. */
    method WriteSaveData(nbt: CompoundTag) returns (ok: bool)
      modifies nbt
      ensures ok <==> crateName.Some?
      ensures ok ==> nbt.tags == WithString(old(nbt.tags), CrateTypeTag, crateName.value)
      ensures !ok ==> nbt.tags == old(nbt.tags)
    {
      if crateName.None? {
        return false;
      }
      nbt.SetString(CrateTypeTag, crateName.value);
      return true;
    }
  }

  /**
   * Saving a tile whose crate is in the catalog and loading the saved data into a new tile
   * gives back the same crate; a crate missing from the catalog loads as none.
   */
  method SaveLoadRoundTrip(world: World, crate: Crate, catalog: Catalog) returns (loaded: CrateTile)
    requires CatalogWellFormed(catalog)
    ensures loaded.crateName == Some(crate.name)
    ensures crate.name in catalog ==> loaded.crateType == Some(catalog[crate.name])
    ensures crate.name !in catalog ==> loaded.crateType == None
  {
    var tile := new CrateTile(world);
    tile.SetCrateType(crate);
    var nbt := new CompoundTag(map[]);
    var written := tile.WriteSaveData(nbt);
    loaded := new CrateTile(world);
    var read := loaded.ReadSaveData(nbt, catalog);
  }
}
