/** ProgressRepository.kt: the registry of running operations (installs) by
    request id, the classification of a progress pair (value, max), and the
    automatic removal of an operation once it has finished. */
module ProgressRegistry {
  import opened Common
  import Games

  /** `max == 0`: no known amount of work yet. */
  predicate Indeterminate(value: int, max: int) {
    max == 0
  }

  /** `value == max` on a determinate pair. */
  predicate Complete(value: int, max: int) {
    value == max && !Indeterminate(value, max)
  }

  /** A negative value is the failure sentinel. */
  predicate Failed(value: int, max: int) {
    value < 0
  }

  predicate Finished(value: int, max: int) {
    Failed(value, max) || Complete(value, max)
  }

  /** What the four predicates mean on the pair, written without each other,
      and how they overlap: a finished pair is either failed or complete,
      both only when `value == max < 0`; an indeterminate pair is finished
      exactly when it is failed. */
  lemma Classification(value: int, max: int)
    ensures Finished(value, max) <==> value < 0 || (value == max && max != 0)
    ensures Failed(value, max) && Complete(value, max) <==> value == max < 0
    ensures Indeterminate(value, max) ==> (Finished(value, max) <==> value < 0)
    ensures !Finished(value, max) && !Indeterminate(value, max) ==> 0 <= value && value != max
  {
  }

  /** ProgressEntry: the stored state of one operation. */
  datatype ProgressEntry = ProgressEntry(value: int, max: int, message: Option<string>) {
    predicate IsComplete() { Complete(value, max) }
    predicate IsFailed() { Failed(value, max) }
    predicate IsFinished() { Finished(value, max) }
    predicate IsIndeterminate() { Indeterminate(value, max) }
  }

  /** ProgressUpdateEntry: what the operation's handler is given. */
  datatype ProgressUpdateEntry = ProgressUpdateEntry(value: int, max: int, message: Option<string>) {
    predicate IsComplete() { Complete(value, max) }
    predicate IsFailed() { Failed(value, max) }
    predicate IsFinished() { Finished(value, max) }
    predicate IsIndeterminate() { Indeterminate(value, max) }
  }

  /** The entry `create` registers: 0 of 0, no message. */
  const NewEntry: ProgressEntry := ProgressEntry(0, 0, None)

  /** One call of an operation's handler. */
  datatype Delivery = Delivery(id: int, update: ProgressUpdateEntry)

  class ProgressRepository {
    /** progressHandlers: the entry of each registered request id. */
    var handlers: map<int, ProgressEntry>
    var nextRequestId: int
    /** The handler calls made so far, in order. */
    var delivered: seq<Delivery>
    /** The game list whose progress entries `cancel` clears. */
    const gameRepository: Games.GameRepository

    /** Every registered id was handed out by `create`, so it is below the
        next id to hand out. */
    predicate IdsBelowNext()
      reads this
    {
      forall id | id in handlers :: id < nextRequestId
    }

    ghost predicate Valid()
      reads this, gameRepository, gameRepository.games
    {
      IdsBelowNext() && gameRepository.Valid()
    }

    constructor (gameRepository: Games.GameRepository)
      requires gameRepository.Valid()
      ensures Valid()
      ensures handlers == map[] && nextRequestId == 0 && delivered == []
      ensures this.gameRepository == gameRepository
    {
      handlers := map[];
      nextRequestId := 0;
      delivered := [];
      this.gameRepository := gameRepository;
    }

    /** onProgressEvent: an unknown id is refused (false) and nothing changes.
        Otherwise the entry takes the new value and max, keeps its message
        when the new one is null, its handler is called with the result, and
        an entry that is now finished is cancelled: its id leaves the registry
        and its game progress is cleared. */
    method OnProgressEvent(id: int, value: int, max: int, message: Option<string>) returns (ok: bool)
      requires Valid()
      modifies this, gameRepository, gameRepository.games
      ensures Valid()
      ensures ok <==> id in old(handlers)
      ensures nextRequestId == old(nextRequestId)
      ensures !ok ==> handlers == old(handlers) && delivered == old(delivered)
      ensures !ok ==> unchanged(gameRepository) && unchanged(gameRepository.games)
      ensures ok ==>
        var e := ProgressEntry(value, max, Elvis(message, old(handlers[id].message)));
        && delivered == old(delivered) + [Delivery(id, ProgressUpdateEntry(value, max, e.message))]
        && (e.IsFinished() ==> handlers == old(handlers) - {id})
        && (!e.IsFinished() ==> handlers == old(handlers)[id := e])
        && (!e.IsFinished() ==> unchanged(gameRepository) && unchanged(gameRepository.games))
      ensures ok && Finished(value, max) ==>
        && gameRepository.games == Games.KeptAfterClear(old(gameRepository.games))
        && forall g | g in old(gameRepository.games) ::
             g.info == old(g.info) && g.progressList == Games.WithoutId(old(g.progressList), id)
    {
      if id !in handlers {
        return false;
      }
      var item := handlers[id];
      item := item.(value := value, max := max, message := Elvis(message, item.message));
      handlers := handlers[id := item];
      delivered := delivered + [Delivery(id, ProgressUpdateEntry(value, max, item.message))];
      if item.IsFinished() {
        Cancel(id);
      }
      return true;
    }

    /** cancel(id): the id leaves the registry (nothing else does; an absent id
        leaves it as it was) and the game list's progress for it is cleared. */
    method Cancel(id: int)
      requires Valid()
      modifies this, gameRepository, gameRepository.games
      ensures Valid()
      ensures handlers == old(handlers) - {id}
      ensures nextRequestId == old(nextRequestId) && delivered == old(delivered)
      ensures gameRepository.games == Games.KeptAfterClear(old(gameRepository.games))
      ensures forall g | g in old(gameRepository.games) ::
        g.info == old(g.info) && g.progressList == Games.WithoutId(old(g.progressList), id)
    {
      handlers := handlers - {id};
      gameRepository.ClearProgress(id);
    }

    /** The ids at or above `next` that are already taken. */
    ghost function TakenFrom(next: int): set<int>
      reads this
    {
      set k | k in handlers && k >= next
    }

    /** The id allocation of create: ids are drawn from `nextRequestId++`
        until `put` finds the key free. `put` overwrites a key that is taken,
        so every taken id drawn on the way now holds the new entry. In a
        registry where every id is below `nextRequestId` (IdsBelowNext) the
        first id drawn is free and is the one returned. */
    method Create() returns (requestId: int)
      modifies this
      ensures requestId !in old(handlers) && requestId in handlers
      ensures old(nextRequestId) <= requestId && nextRequestId == requestId + 1
      ensures forall k | old(nextRequestId) <= k < requestId :: k in old(handlers)
      ensures handlers.Keys == old(handlers).Keys + {requestId}
      ensures forall k | k in handlers && old(nextRequestId) <= k <= requestId :: handlers[k] == NewEntry
      ensures forall k | k in old(handlers) && !(old(nextRequestId) <= k <= requestId) :: handlers[k] == old(handlers)[k]
      ensures old(IdsBelowNext()) ==> requestId == old(nextRequestId) && IdsBelowNext()
      ensures delivered == old(delivered)
    {
      requestId := nextRequestId;
      while true
        invariant old(nextRequestId) <= nextRequestId
        invariant forall k | old(nextRequestId) <= k < nextRequestId :: k in old(handlers)
        invariant handlers.Keys == old(handlers).Keys
        invariant forall k | k in handlers && old(nextRequestId) <= k < nextRequestId :: handlers[k] == NewEntry
        invariant forall k | k in old(handlers) && !(old(nextRequestId) <= k < nextRequestId) :: handlers[k] == old(handlers)[k]
        invariant delivered == old(delivered)
        decreases |TakenFrom(nextRequestId)|
      {
        ghost var taken := TakenFrom(nextRequestId);
        requestId := nextRequestId;
        nextRequestId := nextRequestId + 1;
        var previous := if requestId in handlers then Some(handlers[requestId]) else None;
        handlers := handlers[requestId := NewEntry];
        if previous.None? {
          break;
        }
        assert TakenFrom(nextRequestId) == taken - {requestId};
      }
      assert old(IdsBelowNext()) ==> old(nextRequestId) !in old(handlers);
    }
  }
}
