/**
 * The subscription state of `TelegramSession` as a value: the in-memory user cache
 * (`users_cache`, user id to enabled module names), the order in which ids entered it
 * (Python dicts iterate in insertion order) and the user store (id to the colon-joined
 * module string). The class in module Session is specified by these functions.
 *
 * How `TelegramUser` turns the stored module string into its `enabled_modules` list is
 * not part of this model: it is the parameter `parse`.
 */
module Registry {
  import opened Wrappers
  import opened Subscriptions

  /** `SessionException` from `add_user`; `NotRegistered` for a lookup of an absent user. */
  datatype Error = SessionException | NotRegistered

  datatype State = State(cache: map<int, seq<string>>, order: seq<int>, db: map<int, string>)

  /** The order lists every cached id exactly once. */
  ghost predicate Valid(s: State)
  {
    NoDup(s.order) && (forall id :: id in s.cache <==> id in s.order)
  }

  /** Cache and store know the same users. */
  predicate InSync(s: State)
  {
    s.db.Keys == s.cache.Keys
  }

  /** `add_user`: refuses an id that is already cached, otherwise caches a new user record. */
  function AddUser(s: State, id: int, modules: string, parse: string -> seq<string>): Result<State, Error>
  {
    if id in s.cache then Err(SessionException)
    else Ok(State(s.cache[id := parse(modules)], s.order + [id], s.db))
  }

  /**
   * An id already cached gives `SessionException` and no new state; a new id adds exactly
   * that key, with the parsed modules, at the end of the order, and nothing else changes.
   */
  lemma AddUserSpec(s: State, id: int, modules: string, parse: string -> seq<string>)
    ensures var r := AddUser(s, id, modules, parse);
      && (r.Err? <==> id in s.cache)
      && (r.Err? ==> r.error == SessionException)
      && (r.Ok? ==>
        && r.value.cache.Keys == s.cache.Keys + {id}
        && r.value.cache[id] == parse(modules)
        && (forall k :: k in s.cache ==> r.value.cache[k] == s.cache[k])
        && r.value.order == s.order + [id]
        && r.value.db == s.db)
    ensures Valid(s) && AddUser(s, id, modules, parse).Ok? ==> Valid(AddUser(s, id, modules, parse).value)
  {
  }

  /** The ids of the rows, in row order. */
  function Ids(rows: seq<(int, string)>): seq<int>
  {
    if rows == [] then [] else [rows[0].0] + Ids(rows[1..])
  }

  lemma {:induction false} IdsAt(rows: seq<(int, string)>)
    ensures |Ids(rows)| == |rows| && forall i :: 0 <= i < |rows| ==> Ids(rows)[i] == rows[i].0
    decreases |rows|
  {
    if rows != [] {
      IdsAt(rows[1..]);
    }
  }

  /**
   * `fetch_db`: every store row is passed to `add_user` in turn; the first duplicate id
   * raises and ends the replay, with the rows before it already cached.
   */
  function Replay(s: State, rows: seq<(int, string)>, parse: string -> seq<string>)
    : (Outcome<Error>, State)
    decreases |rows|
  {
    if rows == [] then (Pass, s)
    else
      match AddUser(s, rows[0].0, rows[0].1, parse)
      case Err(e) => (Fail(e), s)
      case Ok(s1) => Replay(s1, rows[1..], parse)
  }

  /** No two rows share an id and no row's id is cached already. */
  ghost predicate FreshRows(s: State, rows: seq<(int, string)>)
  {
    NoDup(Ids(rows)) && forall i :: 0 <= i < |rows| ==> rows[i].0 !in s.cache
  }

  lemma FreshRowsStep(s: State, s1: State, rows: seq<(int, string)>)
    requires rows != [] && rows[0].0 !in s.cache
    requires s1.cache.Keys == s.cache.Keys + {rows[0].0}
    ensures FreshRows(s, rows) <==> FreshRows(s1, rows[1..])
  {
    var ids, rest := Ids(rows), Ids(rows[1..]);
    IdsAt(rows);
    IdsAt(rows[1..]);
    if FreshRows(s1, rows[1..]) {
      forall i, j | 0 <= i < j < |ids| ensures ids[i] != ids[j] {
        if i == 0 {
          assert rows[j].0 == rows[1..][j - 1].0;
        } else {
          assert ids[i] == rest[i - 1] && ids[j] == rest[j - 1];
        }
      }
    }
    if FreshRows(s, rows) {
      forall i, j | 0 <= i < j < |rest| ensures rest[i] != rest[j] {
        assert rest[i] == ids[i + 1] && rest[j] == ids[j + 1];
      }
      forall i | 0 <= i < |rows[1..]| ensures rows[1..][i].0 !in s1.cache {
        assert ids[0] != ids[i + 1];
      }
    }
  }

  /**
   * Replaying rows keeps the state valid and leaves the store and every user cached
   * before alone, whether it succeeds or not.
   */
  lemma {:induction false} ReplayKeeps(s: State, rows: seq<(int, string)>, parse: string -> seq<string>)
    ensures var t := Replay(s, rows, parse).1;
      && (Valid(s) ==> Valid(t)) && t.db == s.db
      && (forall id :: id in s.cache ==> id in t.cache && t.cache[id] == s.cache[id])
    decreases |rows|
  {
    if rows != [] {
      var a := AddUser(s, rows[0].0, rows[0].1, parse);
      if a.Ok? {
        ReplayKeeps(a.value, rows[1..], parse);
      }
    }
  }

  /**
   * The replay succeeds exactly when the rows' ids are distinct and none is cached yet;
   * a failure is always the duplicate-session error.
   */
  lemma {:induction false} ReplayOutcome(s: State, rows: seq<(int, string)>, parse: string -> seq<string>)
    ensures var out := Replay(s, rows, parse).0;
      && (out == Pass <==> FreshRows(s, rows))
      && (out.Fail? ==> out.error == SessionException)
    decreases |rows|
  {
    if rows != [] {
      var a := AddUser(s, rows[0].0, rows[0].1, parse);
      if a.Ok? {
        ReplayOutcome(a.value, rows[1..], parse);
        FreshRowsStep(s, a.value, rows);
      } else {
        assert !FreshRows(s, rows);
      }
    }
  }

  /**
   * A successful replay caches exactly the rows' users besides those already there,
   * appends their ids in row order, and gives each one the parse of its module string.
   */
  lemma ReplayPass(s: State, rows: seq<(int, string)>, parse: string -> seq<string>)
    requires Replay(s, rows, parse).0 == Pass
    ensures var t := Replay(s, rows, parse).1;
      && t.order == s.order + Ids(rows)
      && (forall id :: id in t.cache <==> id in s.cache || id in Ids(rows))
      && (forall i :: 0 <= i < |rows| ==> rows[i].0 in t.cache && t.cache[rows[i].0] == parse(rows[i].1))
  {
    ReplayPassOrder(s, rows, parse);
    ReplayPassKeys(s, rows, parse);
    ReplayPassValues(s, rows, parse);
  }

  /** The first step of a successful replay adds the first row's user. */
  lemma ReplayFirst(s: State, rows: seq<(int, string)>, parse: string -> seq<string>)
    requires rows != [] && Replay(s, rows, parse).0 == Pass
    ensures rows[0].0 !in s.cache
    ensures Replay(s, rows, parse) ==
      Replay(State(s.cache[rows[0].0 := parse(rows[0].1)], s.order + [rows[0].0], s.db), rows[1..], parse)
  {
  }

  /** A successful replay appends the row ids to the order, in row order. */
  lemma {:induction false} ReplayPassOrder(s: State, rows: seq<(int, string)>, parse: string -> seq<string>)
    requires Replay(s, rows, parse).0 == Pass
    ensures Replay(s, rows, parse).1.order == s.order + Ids(rows)
    decreases |rows|
  {
    if rows == [] {
      assert Ids(rows) == [];
    } else {
      var first, rest := rows[0].0, rows[1..];
      var s1 := State(s.cache[first := parse(rows[0].1)], s.order + [first], s.db);
      var t := Replay(s1, rest, parse).1;
      assert Replay(s, rows, parse).1 == t && Replay(s1, rest, parse).0 == Pass by {
        ReplayFirst(s, rows, parse);
      }
      assert t.order == (s.order + [first]) + Ids(rest) by {
        ReplayPassOrder(s1, rest, parse);
      }
    }
  }

  /** A successful replay caches exactly the old users and the row ids. */
  lemma {:induction false} ReplayPassKeys(s: State, rows: seq<(int, string)>, parse: string -> seq<string>)
    requires Replay(s, rows, parse).0 == Pass
    ensures forall id :: id in Replay(s, rows, parse).1.cache <==> id in s.cache || id in Ids(rows)
    decreases |rows|
  {
    if rows == [] {
      assert Ids(rows) == [];
    } else {
      ReplayFirst(s, rows, parse);
      var s1 := State(s.cache[rows[0].0 := parse(rows[0].1)], s.order + [rows[0].0], s.db);
      ReplayPassKeys(s1, rows[1..], parse);
    }
  }

  /** A successful replay leaves each row's user holding the parse of its module string. */
  lemma {:induction false} ReplayPassValues(s: State, rows: seq<(int, string)>, parse: string -> seq<string>)
    requires Replay(s, rows, parse).0 == Pass
    ensures forall i :: 0 <= i < |rows| ==>
      rows[i].0 in Replay(s, rows, parse).1.cache && Replay(s, rows, parse).1.cache[rows[i].0] == parse(rows[i].1)
    decreases |rows|
  {
    if rows != [] {
      ReplayFirst(s, rows, parse);
      var s1 := State(s.cache[rows[0].0 := parse(rows[0].1)], s.order + [rows[0].0], s.db);
      var rest := rows[1..];
      ReplayPassValues(s1, rest, parse);
      ReplayKeeps(s1, rest, parse);
      var t := Replay(s1, rest, parse).1;
      forall i | 1 <= i < |rows| ensures rows[i].0 in t.cache && t.cache[rows[i].0] == parse(rows[i].1) {
        assert rows[i] == rest[i - 1];
      }
    }
  }

  /**
   * The rows `get_all_users` returns for store `db`: each store entry exactly once, with
   * its id and its module string.
   */
  ghost predicate StoreRows(db: map<int, string>, rows: seq<(int, string)>)
  {
    && NoDup(Ids(rows))
    && (forall id :: id in db <==> id in Ids(rows))
    && (forall i :: 0 <= i < |rows| ==> rows[i].0 in db && rows[i].1 == db[rows[i].0])
  }

  /**
   * `__init__` then `fetch_db` on the store's own rows: the replay into an empty cache
   * succeeds, caches exactly the store's users, each with the parse of its stored module
   * string, in row order, and leaves the cache and the store in step.
   */
  lemma ReplayStore(db: map<int, string>, rows: seq<(int, string)>, parse: string -> seq<string>)
    requires StoreRows(db, rows)
    ensures var (out, t) := Replay(State(map[], [], db), rows, parse);
      && out == Pass
      && t.db == db
      && InSync(t)
      && Valid(t)
      && t.order == Ids(rows)
      && (forall id :: id in db ==> id in t.cache && t.cache[id] == parse(db[id]))
  {
    var s := State(map[], [], db);
    ReplayOutcome(s, rows, parse);
    ReplayKeeps(s, rows, parse);
    assert Valid(s);
    ReplayPass(s, rows, parse);
    IdsAt(rows);
    var t := Replay(s, rows, parse).1;
    forall id | id in db ensures id in t.cache && t.cache[id] == parse(db[id]) {
      var i :| 0 <= i < |Ids(rows)| && Ids(rows)[i] == id;
      assert rows[i].0 == id;
    }
    assert t.cache.Keys == db.Keys by {
      forall id | id in t.cache ensures id in db {
        assert id in s.cache || id in Ids(rows);
      }
    }
  }

  /** The two replies of `cmd_start`. */
  datatype StartReply = AlreadyRegistered | NowRegistered
  {
    function Text(): string
    {
      match this
      case AlreadyRegistered => "You are already registered! To get help use /help"
      case NowRegistered => "Now you are registered for updates!"
    }
  }

  /**
   * `cmd_start`: a cached user is told so and nothing changes; a new user is written to
   * the store with the default module string first and then cached through `add_user`.
   */
  function Start(s: State, id: int, defaultModules: string, parse: string -> seq<string>)
    : (r: (StartReply, State))
    ensures r.0 == AlreadyRegistered <==> id in s.cache
    ensures id in s.cache ==> r.1 == s
    ensures id !in s.cache ==>
      && r.1.cache.Keys == s.cache.Keys + {id}
      && r.1.db.Keys == s.db.Keys + {id}
      && r.1.cache[id] == parse(defaultModules)
      && r.1.db[id] == defaultModules
      && (forall k :: k in s.cache ==> r.1.cache[k] == s.cache[k])
      && (forall k :: k in s.db && k != id ==> r.1.db[k] == s.db[k])
      && r.1.order == s.order + [id]
  {
    if id in s.cache then (AlreadyRegistered, s)
    else
      var stored := State(s.cache, s.order, s.db[id := defaultModules]);
      (NowRegistered, AddUser(stored, id, defaultModules, parse).value)
  }

  /** Registering twice: the second call reports "already registered" and changes nothing. */
  lemma StartIdempotent(s: State, id: int, defaultModules: string, parse: string -> seq<string>)
    ensures var t := Start(s, id, defaultModules, parse).1;
      Start(t, id, defaultModules, parse) == (AlreadyRegistered, t)
  {
  }

  /** Registration keeps the state valid and the cache and store in step. */
  lemma StartKeepsInvariants(s: State, id: int, defaultModules: string, parse: string -> seq<string>)
    ensures Valid(s) ==> Valid(Start(s, id, defaultModules, parse).1)
    ensures InSync(s) ==> InSync(Start(s, id, defaultModules, parse).1)
  {
  }

  /**
   * `callback_handler`: toggles one module of a cached user, writes the colon-joined new
   * list to the store and reports the switch; an absent user is an error.
   */
  function ToggleUser(s: State, id: int, name: string): (r: Result<(Switch, State), Error>)
    ensures r.Err? <==> id !in s.cache
    ensures r.Err? ==> r.error == NotRegistered
  {
    if id !in s.cache then Err(NotRegistered)
    else
      var mods := s.cache[id];
      var updated := Toggle(mods, name);
      Ok((SwitchFor(mods, name), State(s.cache[id := updated], s.order, s.db[id := Join(updated, ":")])))
  }

  /**
   * What one toggle does: the switch is OFF exactly when the name was enabled; only this
   * user's list and store row change; the row holds the join of the new list; and on a
   * list without duplicates the name flips, every other name stays, and no duplicate
   * appears.
   */
  lemma ToggleUserSpec(s: State, id: int, name: string)
    requires id in s.cache
    ensures var (sw, t) := ToggleUser(s, id, name).value;
      var before, after := s.cache[id], t.cache[id];
      && (sw == Off <==> name in before)
      && t.order == s.order
      && t.cache.Keys == s.cache.Keys
      && t.db.Keys == s.db.Keys + {id}
      && (forall u :: u in s.cache && u != id ==> t.cache[u] == s.cache[u])
      && (forall u :: u in s.db && u != id ==> t.db[u] == s.db[u])
      && t.db[id] == Join(after, ":")
      && (NoDup(before) ==>
        && NoDup(after)
        && (name in after <==> name !in before)
        && (forall y :: y != name ==> (y in after <==> y in before)))
  {
    var before := s.cache[id];
    if NoDup(before) {
      ToggleFlips(before, name);
      ToggleKeepsNoDup(before, name);
    }
  }

  /** A toggle keeps the state valid and the cache and store in step. */
  lemma ToggleUserKeepsInvariants(s: State, id: int, name: string)
    requires id in s.cache
    ensures Valid(s) ==> Valid(ToggleUser(s, id, name).value.1)
    ensures InSync(s) ==> InSync(ToggleUser(s, id, name).value.1)
  {
  }

  /**
   * Switching an absent module on and off again restores the user's list exactly, reports
   * ON then OFF, and leaves the join of the original list in the store.
   */
  lemma ToggleUserTwice(s: State, id: int, name: string)
    requires id in s.cache && name !in s.cache[id]
    ensures var (sw1, t1) := ToggleUser(s, id, name).value;
      var (sw2, t2) := ToggleUser(t1, id, name).value;
      && sw1 == On && sw2 == Off
      && t2.cache == s.cache && t2.order == s.order
      && t2.db == s.db[id := Join(s.cache[id], ":")]
  {
    ToggleTwiceAbsent(s.cache[id], name);
    var t1 := ToggleUser(s, id, name).value.1;
    assert name in t1.cache[id];
    assert t1.cache[id := Toggle(t1.cache[id], name)] == s.cache by {
      assert Toggle(t1.cache[id], name) == s.cache[id];
    }
  }
}
