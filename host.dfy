/**
 * The host engine's collaborators as the crate tile sees them: a server whose effects
 * (block events, tips, dispatched console commands, scheduled tasks) are recorded in a log,
 * players with their inventories, worlds with their players, and floating-text particles.
 */
module Host {
  import opened Crates

  /** The messages the crate tile shows to a player as a tip. */
  datatype Message =
    | CurrentlyOpenedTip               // "crates.error.currently-opened"
    | InventoryFullTip(count: int)     // "crates.error.inventory-full" with {COUNT}

  /** An observable effect of the crate tile on the rest of the game. */
  datatype Effect =
    | BlockEvent(at: object, eventType: int, eventData: int)  // broadcast to the block's viewers
    | Tip(to: Player, message: Message)
    | Dispatch(command: string)                               // run as the console
    | ScheduleRoulette(target: object, period: int)           // repeating roulette task

  /** The server, the plugin's scheduler and the world broadcaster, seen through their effects. */
  class Server {
    var log: seq<Effect>

    constructor ()
      ensures log == []
    {
      log := [];
    }

    method Emit(e: Effect)
      modifies this
      ensures log == old(log) + [e]
    {
      log := log + [e];
    }
  }

  /**
   * A player's inventory, abstracted to what the crate tile depends on: its size, the number
   * of occupied slots, the units of the crate key held, and the items added to it so far.
   */
  class Inventory {
    const size: nat
    var occupied: nat
    var keys: nat
    var received: seq<Item>

    constructor (size: nat, occupied: nat, keys: nat)
      ensures this.size == size && this.occupied == occupied && this.keys == keys
      ensures received == []
    {
      this.size, this.occupied, this.keys := size, occupied, keys;
      received := [];
    }

    /** `removeItem` of one unit of the key: takes one unit if there is one. */
    method RemoveKey()
      modifies this
      ensures keys == if old(keys) > 0 then old(keys) - 1 else 0
      ensures occupied == old(occupied) && received == old(received)
    {
      if keys > 0 {
        keys := keys - 1;
      }
    }

    /** `addItem`: the item is handed to the inventory. */
    method AddItem(item: Item)
      modifies this
      ensures received == old(received) + [item]
      ensures occupied == old(occupied) && keys == old(keys)
    {
      received := received + [item];
    }
  }

  /** A connected (or formerly connected) player. */
  class Player {
    const name: string
    const inventory: Inventory
    var online: bool
    var world: World?

    constructor (name: string, inventory: Inventory, world: World?)
      ensures this.name == name && this.inventory == inventory
      ensures this.world == world && online
    {
      this.name, this.inventory, this.world := name, inventory, world;
      online := true;
    }
  }

  /** A world and the players currently in it (`World::getPlayers`). */
  class World {
    var players: seq<Player>

    constructor ()
      ensures players == []
    {
      players := [];
    }
  }

  /** The host keeps `players` in step with each player's own `online` and `world`. */
  ghost predicate HostConsistent(w: World)
    reads w, w.players
  {
    forall p :: p in w.players ==> p.online && p.world == w
  }

  /** A floating-text particle shown to one viewer. */
  class FloatingText {
    const text: string

    constructor (text: string)
      ensures this.text == text
    {
      this.text := text;
    }
  }
}
