/**
 * `PlayerManager`: a ring of three players with a current slot that moves
 * forwards and backwards, the slot arithmetic used to preload neighbouring
 * videos, and the rule that a url's resource-loader delegate is created and
 * registered only once. Swift's `%` truncates toward zero, so it is written
 * out as `TruncRem` rather than taken from Dafny's Euclidean `%`.
 */
module Players {
  import opened Common
  import opened VideoCaching
  import opened Loader

  /** Swift's `a % n` for `n > 0`: the remainder takes the sign of `a`. */
  function TruncRem(a: int, n: int): (r: int)
    requires n > 0
    ensures -n < r < n
    ensures a >= 0 ==> r >= 0
    ensures a <= 0 ==> r <= 0
  {
    if a >= 0 then a % n else -((-a) % n)
  }

  /** Swift's `a / n` for `n > 0`: the quotient is rounded toward zero. */
  function TruncQuot(a: int, n: int): int
    requires n > 0
  {
    if a >= 0 then a / n else -((-a) / n)
  }

  /**
   * `TruncRem` is the remainder of truncating division: `a` is `n` times the
   * truncated quotient plus the remainder.
   */
  lemma TruncDivision(a: int, n: int)
    requires n > 0
    ensures a == TruncQuot(a, n) * n + TruncRem(a, n)
  {
    if a < 0 {
      var q, r := (-a) / n, (-a) % n;
      assert -a == q * n + r;
      assert -q * n == -(q * n);
    }
  }

  /** `players.count`: the ring always has three players. */
  const Ring := 3

  /** The slot `advanceToNext` moves to from slot `i`. */
  function Next(i: int): (r: int)
    ensures 0 <= i < Ring ==> 0 <= r < Ring
  {
    TruncRem(i + 1, Ring)
  }

  /** The slot `retreatToPrevious` moves to from slot `i`. */
  function Prev(i: int): (r: int)
    ensures 0 <= i < Ring ==> 0 <= r < Ring
  {
    TruncRem(i - 1 + Ring, Ring)
  }

  /** The slot `preparePlayer(at: offset)` fills when the current slot is `i`. */
  function Slot(i: int, offset: int): (r: int)
    ensures 0 <= i < Ring && offset >= -Ring ==> 0 <= r < Ring
  {
    TruncRem(i + offset + Ring, Ring)
  }

  /** Advancing wraps from the last slot to the first. */
  lemma NextWraps(i: int)
    requires 0 <= i < Ring
    ensures Next(i) == if i == Ring - 1 then 0 else i + 1
  {
  }

  /** Retreating wraps from the first slot to the last. */
  lemma PrevWraps(i: int)
    requires 0 <= i < Ring
    ensures Prev(i) == if i == 0 then Ring - 1 else i - 1
  {
  }

  /** `retreatToPrevious` undoes `advanceToNext`. */
  lemma RetreatUndoesAdvance(i: int)
    requires 0 <= i < Ring
    ensures Prev(Next(i)) == i
  {
    NextWraps(i);
    PrevWraps(Next(i));
  }

  /** `advanceToNext` undoes `retreatToPrevious`. */
  lemma AdvanceUndoesRetreat(i: int)
    requires 0 <= i < Ring
    ensures Next(Prev(i)) == i
  {
    PrevWraps(i);
    NextWraps(Prev(i));
  }

  /** The slot reached from `i` after `steps` calls of `advanceToNext`. */
  function Advanced(i: int, steps: nat): int
  {
    if steps == 0 then i else Next(Advanced(i, steps - 1))
  }

  /** `steps` advances shift the slot by `steps` round the ring. */
  lemma {:induction false} AdvancedIsShifted(i: int, steps: nat)
    requires 0 <= i < Ring
    ensures Advanced(i, steps) == (i + steps) % Ring
  {
    if steps > 0 {
      AdvancedIsShifted(i, steps - 1);
      NextWraps(Advanced(i, steps - 1));
    }
  }

  /** Three advances, one per player, are the identity. */
  lemma FullTurnIsIdentity(i: int)
    requires 0 <= i < Ring
    ensures Advanced(i, Ring) == i
  {
    AdvancedIsShifted(i, Ring);
  }

  /** Offset 0 prepares the current player; offsets 1 and -1 the slots advance and retreat reach. */
  lemma SlotNeighbours(i: int)
    requires 0 <= i < Ring
    ensures Slot(i, 0) == i
    ensures Slot(i, 1) == Next(i)
    ensures Slot(i, -1) == Prev(i)
  {
  }

  /** From slot 1, an offset of -5 gives slot -1: indexing `players` with it traps. */
  lemma FarBackwardOffsetTraps()
    ensures Slot(1, -5) == -1
    ensures Slot(1, -4) == 0
  {
  }

  /** An `AVPlayer`: the item it plays and its stalling policy. */
  class Player {
    var item: Option<PlayerItem>
    var waitsToMinimizeStalling: bool

    constructor ()
      ensures item == None && waitsToMinimizeStalling
    {
      item := None;
      waitsToMinimizeStalling := true;
    }
  }

  /** An `AVPlayerItem` over an `AVURLAsset` for `url`, and the delegate set on the asset's loader, if any. */
  datatype PlayerItem = PlayerItem(url: Url, loader: Option<ResourceLoaderDelegate>)

  class PlayerManager {
    const players: seq<Player>
    var currentIndex: int

    /** Three distinct players and a current slot among them. */
    ghost predicate Valid()
      reads this
    {
      && |players| == Ring
      && players[0] != players[1] && players[1] != players[2] && players[0] != players[2]
      && 0 <= currentIndex < |players|
    }

    /** `init`: three fresh players, the middle one current. */
    constructor ()
      ensures Valid() && currentIndex == 1
      ensures forall p :: p in players ==> fresh(p) && p.item == None
    {
      var p0 := new Player();
      var p1 := new Player();
      var p2 := new Player();
      players := [p0, p1, p2];
      currentIndex := 1;
    }

    /** `currentPlayer()`: the player in the current slot. */
    method CurrentPlayer() returns (player: Player)
      requires Valid()
      ensures player in players && player == players[Slot(currentIndex, 0)]
    {
      SlotNeighbours(currentIndex);
      player := players[currentIndex];
    }

    /**
     * `preparePlayer(at:with:cache:resourceLoaderDelegates:)`: gives the
     * player `offset` slots away an item for `url` and turns off its stalling
     * wait. A delegate is created, registered and set on the asset only when
     * `url` has none yet; an asset for an already registered url gets no
     * delegate. The registry is the `inout` dictionary, passed in and back.
     */
    method PreparePlayer(offset: int, url: Url, cache: VideoCache, delegates: map<Url, ResourceLoaderDelegate>)
      returns (registry: map<Url, ResourceLoaderDelegate>)
      requires Valid() && Slot(currentIndex, offset) >= 0
      modifies players[Slot(currentIndex, offset)]
      ensures url in registry
      ensures url in delegates ==> registry == delegates
      ensures url !in delegates ==>
                && registry == delegates[url := registry[url]]
                && fresh(registry[url])
                && registry[url].cache == cache && registry[url].url == url
                && registry[url].pendingRequests == [] && registry[url].downloadTask == None
      ensures var player := players[Slot(currentIndex, offset)];
              && player.item == Some(PlayerItem(url, if url in delegates then None else Some(registry[url])))
              && !player.waitsToMinimizeStalling
    {
      var playerIndex := TruncRem(currentIndex + offset + |players|, |players|);
      var player := players[playerIndex];
      var loader: Option<ResourceLoaderDelegate> := None;
      registry := delegates;
      if url !in registry {
        var delegate := new ResourceLoaderDelegate(cache, url);
        registry := registry[url := delegate];
        loader := Some(delegate);
      }
      player.waitsToMinimizeStalling := false;
      player.item := Some(PlayerItem(url, loader));
    }

    /** `advanceToNext`: the current slot moves forwards round the ring. */
    method AdvanceToNext()
      requires Valid()
      modifies this`currentIndex
      ensures Valid() && currentIndex == Next(old(currentIndex))
    {
      NextWraps(currentIndex);
      currentIndex := TruncRem(currentIndex + 1, |players|);
    }

    /** `retreatToPrevious`: the current slot moves backwards round the ring. */
    method RetreatToPrevious()
      requires Valid()
      modifies this`currentIndex
      ensures Valid() && currentIndex == Prev(old(currentIndex))
    {
      PrevWraps(currentIndex);
      currentIndex := TruncRem(currentIndex - 1 + |players|, |players|);
    }
  }

  /** Advancing and then retreating leaves a manager where it was. */
  method AdvanceThenRetreat(m: PlayerManager)
    requires m.Valid()
    modifies m`currentIndex
    ensures m.Valid() && m.currentIndex == old(m.currentIndex)
  {
    m.AdvanceToNext();
    RetreatUndoesAdvance(old(m.currentIndex));
    m.RetreatToPrevious();
  }

  /** Retreating and then advancing leaves a manager where it was. */
  method RetreatThenAdvance(m: PlayerManager)
    requires m.Valid()
    modifies m`currentIndex
    ensures m.Valid() && m.currentIndex == old(m.currentIndex)
  {
    m.RetreatToPrevious();
    AdvanceUndoesRetreat(old(m.currentIndex));
    m.AdvanceToNext();
  }
}
