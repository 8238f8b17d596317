/** The storage interface the limiter talks to. A backend is the in-memory
    store together with the calls it is made to fail: with no failures it is
    the in-memory store itself, which never fails; a failing call stands for
    what any other backend may report, and leaves the data as it was. */
module Store {
  import opened Results
  import Memory

  /** The five methods of the storage interface. */
  datatype Operation =
    | GetRequestCountOp
    | IncrementRequestCountOp
    | IsBlockedOp
    | BlockOp
    | CloseOp

  datatype StoreError = StoreError(message: string)

  datatype Backend = Backend(mem: Memory.MemoryStore, failures: map<Operation, StoreError>)

  /** The in-memory store seen through the interface. */
  function InMemory(m: Memory.MemoryStore): (b: Backend)
    ensures b.mem == m && b.failures == map[]
  {
    Backend(m, map[])
  }

  /** The factory the limiter is built from, reduced to its one outcome. */
  type Factory = Result<Backend, StoreError>

  /** The factory that returns a fresh in-memory store; it never fails. */
  function MemoryFactory(): (f: Factory)
    ensures f.Ok? && f.value.failures == map[]
    ensures forall key, now :: Memory.GetRequestCount(f.value.mem, key, now) == 0
    ensures forall key, now :: !Memory.IsBlocked(f.value.mem, key, now)
  {
    Ok(InMemory(Memory.NewMemoryStore()))
  }

  function GetRequestCount(b: Backend, key: string, now: int): (r: Result<int, StoreError>)
    ensures GetRequestCountOp in b.failures <==> r.Err?
    ensures r.Ok? ==> r.value == Memory.GetRequestCount(b.mem, key, now)
  {
    if GetRequestCountOp in b.failures then Err(b.failures[GetRequestCountOp])
    else Ok(Memory.GetRequestCount(b.mem, key, now))
  }

  function IncrementRequestCount(b: Backend, key: string, expiration: int, now: int): (r: Result<(int, Backend), StoreError>)
    ensures IncrementRequestCountOp in b.failures <==> r.Err?
    ensures r.Ok? ==> r.value.0 == Memory.GetRequestCount(b.mem, key, now) + 1
    ensures r.Ok? ==> r.value.1.failures == b.failures
    ensures r.Ok? ==> (r.value.0, r.value.1.mem) == Memory.IncrementRequestCount(b.mem, key, expiration, now)
  {
    if IncrementRequestCountOp in b.failures then Err(b.failures[IncrementRequestCountOp])
    else
      var (count, mem) := Memory.IncrementRequestCount(b.mem, key, expiration, now);
      Ok((count, b.(mem := mem)))
  }

  function IsBlocked(b: Backend, key: string, now: int): (r: Result<bool, StoreError>)
    ensures IsBlockedOp in b.failures <==> r.Err?
    ensures r.Ok? ==> r.value == Memory.IsBlocked(b.mem, key, now)
  {
    if IsBlockedOp in b.failures then Err(b.failures[IsBlockedOp])
    else Ok(Memory.IsBlocked(b.mem, key, now))
  }

  function Block(b: Backend, key: string, blockTime: int, now: int): (r: Result<Backend, StoreError>)
    ensures BlockOp in b.failures <==> r.Err?
    ensures r.Ok? ==> r.value == b.(mem := Memory.Block(b.mem, key, blockTime, now))
  {
    if BlockOp in b.failures then Err(b.failures[BlockOp])
    else Ok(b.(mem := Memory.Block(b.mem, key, blockTime, now)))
  }

  /** `Ok(())` is Go's nil error. */
  function Close(b: Backend): (r: Result<(), StoreError>)
    ensures CloseOp in b.failures <==> r.Err?
    ensures r.Err? ==> r.error == b.failures[CloseOp]
  {
    if CloseOp in b.failures then Err(b.failures[CloseOp])
    else if Memory.Close(b.mem) then Ok(())
    else Err(StoreError(""))
  }
}
