/** plugins/idempotency/src/store.ts and idempotency.ts: the reservation store, and the hooks
    that drive it around every request. */
module Idempotency {
  import opened Wrappers
  import opened ByteStrings
  import opened OrderedMap

  datatype Record = Record(
    fingerprint: string,
    status: int,
    contentType: string,
    body: Bytes,
    headers: seq<(string, string)>
  )

  datatype Slot = Slot(fingerprint: string, record: Option<Record>, expiresAt: int)

  type Slots = seq<Entry<string, Slot>>

  datatype BeginResult = New | Replay(record: Record) | InFlight | Mismatch

  function Unexpired(now: int): Slot -> bool {
    (s: Slot) => now < s.expiresAt
  }

  function Evict(m: Slots, now: int): Slots {
    Keep(m, Unexpired(now))
  }

  /** At capacity: expired first, then oldest-inserted. */
  function CapacityEvict(m: Slots, maxKeys: int, now: int): Slots {
    Fit(Evict(m, now), maxKeys)
  }

  predicate Live(m: Slots, key: string, now: int) {
    Get(m, key).Some? && now < Get(m, key).value.expiresAt
  }

  function Begin(m: Slots, maxKeys: int, key: string, fingerprint: string, lockTtlMs: int, now: int): (Slots,
                 BeginResult) {
    if Live(m, key, now) then
      var slot := Get(m, key).value;
      (m,
       if slot.fingerprint != fingerprint then Mismatch
       else if slot.record.Some? then Replay(slot.record.value) else InFlight)
    else
      var room := if |m| >= maxKeys then CapacityEvict(m, maxKeys, now) else m;
      (Put(room, key, Slot(fingerprint, None, now + lockTtlMs)), New)
  }

  function Complete(m: Slots, key: string, record: Record, ttlMs: int, now: int): Slots {
    Put(m, key, Slot(record.fingerprint, Some(record), now + ttlMs))
  }

  class MemoryStore {
    const maxKeys: int
    var slots: Slots

    constructor (maxKeys: int)
      ensures this.maxKeys == maxKeys && slots == []
    {
      this.maxKeys, slots := maxKeys, [];
    }

    method DoEvict(now: int)
      modifies this
      ensures slots == Evict(old(slots), now)
    {
      hide Keep;
      ghost var before := slots;
      KeepNothing(before, Unexpired(now));
      var i := 0;
      ghost var seen := 0;
      while i < |slots|
        invariant i <= |slots| && seen <= |before|
        invariant slots[..i] == Evict(before[..seen], now) && slots[i..] == before[seen..]
        decreases |slots| - i
      {
        KeepNext(before, seen, Unexpired(now));
        assert slots[i] == before[seen];
        ghost var (kept, rest) := (slots[..i], slots[i + 1..]);
        assert rest == before[seen + 1..];
        if now >= slots[i].value.expiresAt {
          slots := slots[..i] + slots[i + 1..];
          assert slots[..i] == kept && slots[i..] == rest;
        } else {
          assert slots[..i + 1] == kept + [slots[i]];
          i := i + 1;
        }
        seen := seen + 1;
      }
      assert before[..seen] == before && slots[..i] == slots;
    }

    method DoCapacityEvict(now: int)
      modifies this
      ensures slots == CapacityEvict(old(slots), maxKeys, now)
    {
      DoEvict(now);
      while |slots| >= maxKeys
        invariant Fit(slots, maxKeys) == CapacityEvict(old(slots), maxKeys, now)
        decreases |slots|
      {
        if slots == [] {
          break;
        }
        slots := slots[1..];
      }
    }

    method DoBegin(key: string, fingerprint: string, lockTtlMs: int, now: int) returns (r: BeginResult)
      modifies this
      ensures (slots, r) == Begin(old(slots), maxKeys, key, fingerprint, lockTtlMs, now)
    {
      var slot := Get(slots, key);
      if slot.Some? && now < slot.value.expiresAt {
        if slot.value.fingerprint != fingerprint {
          return Mismatch;
        }
        return if slot.value.record.Some? then Replay(slot.value.record.value) else InFlight;
      }
      if |slots| >= maxKeys {
        DoCapacityEvict(now);
      }
      slots := Put(slots, key, Slot(fingerprint, None, now + lockTtlMs));
      return New;
    }

    method DoComplete(key: string, record: Record, ttlMs: int, now: int)
      modifies this
      ensures slots == Complete(old(slots), key, record, ttlMs, now)
    {
      slots := Put(slots, key, Slot(record.fingerprint, Some(record), now + ttlMs));
    }

    method Release(key: string)
      modifies this
      ensures slots == Delete(old(slots), key)
    {
      slots := Delete(slots, key);
    }
  }

  // ----- The hooks -----

  /** A request object; the WeakMap's key. */
  type Request = nat

  datatype Held = Held(key: string, fingerprint: string)

  datatype Options = Options(maxKeys: int, required: bool, recordTtlMs: int, lockTtlMs: int)

  /** What the preHandler decides: let the handler run (owning the key or not), or answer. */
  datatype Decision = Runs(owns: bool) | Answers400 | Replays(record: Record) | Answers409 | Answers422

  datatype State = State(slots: Slots, reserved: map<Request, Held>)

  function PreHandler(o: Options, st: State, req: Request, participates: bool, key: Option<string>,
                      fingerprint: string, now: int)
    : (State, Decision)
  {
    if !participates then (st, Runs(false))
    else if key.None? || key.value == "" then (st, if o.required then Answers400 else Runs(false))
    else
      var (slots, r) := Begin(st.slots, o.maxKeys, key.value, fingerprint, o.lockTtlMs, now);
      match r
      case New => (State(slots, st.reserved[req := Held(key.value, fingerprint)]), Runs(true))
      case Replay(record) => (st.(slots := slots), Replays(record))
      case InFlight => (st.(slots := slots), Answers409)
      case Mismatch => (st.(slots := slots), Answers422)
  }

  type Headers = seq<(string, string)>

  /** A response on its way out, and the headers its handler staged on the request. */
  datatype Response = Response(status: int, contentType: string, body: Bytes, headers: Headers, staged: Headers)

  /** `toLowerCase` of a header name. */
  function Lower(name: string): string {
    seq(|name|, i requires 0 <= i < |name| =>
      if 'A' <= name[i] <= 'Z' then (name[i] as int + 32) as char else name[i])
  }

  /** The headers worth replaying: all but cookies. */
  function Replayable(headers: Headers): Headers {
    if headers == [] then [] else UnlessCookie(headers[0]) + Replayable(headers[1..])
  }

  function UnlessCookie(header: (string, string)): Headers {
    if Lower(header.0) == "set-cookie" then [] else [header]
  }

  function RecordOf(held: Held, res: Response): Record {
    Record(held.fingerprint, res.status, res.contentType, res.body, Replayable(res.staged + res.headers))
  }

  function OnSend(o: Options, st: State, req: Request, res: Response, now: int): State {
    if req !in st.reserved then st
    else
      var held := st.reserved[req];
      State(if res.status >= 500 then Delete(st.slots, held.key)
            else Complete(st.slots, held.key, RecordOf(held, res), o.recordTtlMs, now),
            st.reserved - {req})
  }

  class IdempotencyPlugin {
    const options: Options
    const store: MemoryStore
    var reserved: map<Request, Held>

    ghost predicate Valid()
      reads this, store
    {
      store.maxKeys == options.maxKeys
    }

    ghost function View(): State
      reads this, store
    {
      State(store.slots, reserved)
    }

    constructor (options: Options)
      ensures this.options == options && Valid() && fresh(store) && View() == State([], map[])
    {
      this.options, reserved := options, map[];
      store := new MemoryStore(options.maxKeys);
    }

    method DoPreHandler(req: Request, participates: bool, key: Option<string>, fingerprint: string, now: int)
      returns (d: Decision)
      requires Valid()
      modifies this, store
      ensures Valid()
      ensures (View(), d) == PreHandler(options, old(View()), req, participates, key, fingerprint, now)
    {
      if !participates {
        return Runs(false);
      }
      if key.None? || key.value == "" {
        return if options.required then Answers400 else Runs(false);
      }
      var result := store.DoBegin(key.value, fingerprint, options.lockTtlMs, now);
      match result {
        case New =>
          reserved := reserved[req := Held(key.value, fingerprint)];
          return Runs(true);
        case Replay(record) => return Replays(record);
        case InFlight => return Answers409;
        case Mismatch => return Answers422;
      }
    }

    method DoOnSend(req: Request, res: Response, now: int)
      requires Valid()
      modifies this, store
      ensures Valid()
      ensures View() == OnSend(options, old(View()), req, res, now)
      ensures req in old(reserved) && res.status < 500 ==>
                var held := old(reserved)[req];
                var headers := Replayable(res.staged + res.headers);
                var record := Record(held.fingerprint, res.status, res.contentType, res.body, headers);
                store.slots == Put(old(store.slots), held.key,
                                   Slot(held.fingerprint, Some(record), now + options.recordTtlMs))
    {
      if req !in reserved {
        return;
      }
      var held := reserved[req];
      reserved := reserved - {req};
      if res.status >= 500 {
        store.Release(held.key);
        return;
      }
      store.DoComplete(held.key, RecordOf(held, res), options.recordTtlMs, now);
    }
  }
}
