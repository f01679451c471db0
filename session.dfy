/**
 * `TelegramSession`: the user cache, the insertion order of its keys and the user store
 * as fields, updated in place by the registration and toggle handlers; the status menu
 * and the periodic scrape job as methods that read them. Every method is specified by a
 * function of modules Registry, Menu and Notify.
 *
 * The module table is given: `allModules` are the keys of `ALL_MODULES` in iteration
 * order and `defaultModules` is the `DEFAULT_MODULES` string. `parseModules` stands for
 * the `TelegramUser` constructor turning a module string into `enabled_modules`.
 */
module Session {
  import opened Wrappers
  import opened Subscriptions
  import Menu
  import Registry
  import opened Notify

  /** An inline keyboard button: its label text and its `callback_data`. */
  datatype Button = Button(text: string, data: string)

  function Suffix(enabled: bool): string
  {
    if enabled then " +" else " -"
  }

  /** The button for one module: its name with `' +'` when enabled, else `' -'`. */
  function StatusButton(name: string, enabled: seq<string>): Button
  {
    Button(name + Suffix(name in enabled), name)
  }

  /** The buttons `build_modules_menu` collects, one per known module, before layout. */
  function StatusButtons(mods: seq<string>, enabled: seq<string>): seq<Button>
    decreases |mods|
  {
    if mods == [] then []
    else StatusButtons(mods[..|mods| - 1], enabled) + [StatusButton(mods[|mods| - 1], enabled)]
  }

  /** One button per module, in module order, its data the module's name. */
  lemma {:induction false} StatusButtonsAt(mods: seq<string>, enabled: seq<string>)
    ensures |StatusButtons(mods, enabled)| == |mods|
    ensures forall k :: 0 <= k < |mods| ==> StatusButtons(mods, enabled)[k] == StatusButton(mods[k], enabled)
    decreases |mods|
  {
    if mods != [] {
      StatusButtonsAt(mods[..|mods| - 1], enabled);
    }
  }

  /** A module's label ends in `' +'` exactly when the module is enabled, and in `' -'` otherwise. */
  lemma StatusLabel(name: string, enabled: seq<string>)
    ensures var shown := StatusButton(name, enabled).text;
      && |shown| == |name| + 2
      && shown[..|name|] == name
      && (shown[|name|..] == " +" <==> name in enabled)
      && (shown[|name|..] == " -" <==> name !in enabled)
  {
  }

  class TelegramSession {
    const allModules: seq<string>
    const defaultModules: string
    const parseModules: string -> seq<string>
    /** `users_cache`: user id to the user's enabled module names. */
    var usersCache: map<int, seq<string>>
    /** The keys of `users_cache` in insertion order, the order Python iterates them. */
    var order: seq<int>
    /** The user store: user id to the colon-joined module string of the row. */
    var usersDb: map<int, string>

    function State(): Registry.State
      reads this
    {
      Registry.State(usersCache, order, usersDb)
    }

    ghost predicate Valid()
      reads this
    {
      NoDup(allModules) && Registry.Valid(State())
    }

    /** The fields `__init__` sets up before it replays the store with `FetchDb`. */
    constructor (allModules: seq<string>, defaultModules: string, parseModules: string -> seq<string>,
                 usersDb: map<int, string>)
      requires NoDup(allModules)
      ensures Valid()
      ensures this.allModules == allModules && this.defaultModules == defaultModules
      ensures this.parseModules == parseModules
      ensures usersCache == map[] && order == [] && this.usersDb == usersDb
    {
      this.allModules := allModules;
      this.defaultModules := defaultModules;
      this.parseModules := parseModules;
      this.usersCache := map[];
      this.order := [];
      this.usersDb := usersDb;
    }

    /** `get_user`: the cached module list, or None for an unknown id. */
    function GetUser(id: int): (r: Option<seq<string>>)
      reads this
      ensures r.None? <==> id !in usersCache
      ensures r.Some? ==> r.value == usersCache[id]
    {
      if id in usersCache then Some(usersCache[id]) else None
    }

    /** `add_user`: `SessionException` for a cached id, otherwise the user is cached. */
    method AddUser(id: int, modules: string) returns (r: Outcome<Registry.Error>)
      requires Valid()
      modifies this
      ensures Valid()
      ensures var a := Registry.AddUser(old(State()), id, modules, parseModules);
        && (a.Ok? ==> r == Pass && State() == a.value)
        && (a.Err? ==> r == Fail(a.error) && State() == old(State()))
    {
      if id in usersCache {
        r := Fail(Registry.SessionException);
      } else {
        usersCache := usersCache[id := parseModules(modules)];
        order := order + [id];
        r := Pass;
      }
    }

    /**
     * `fetch_db`: replays the rows `get_all_users` returned through `AddUser`, stopping
     * at the first error as the raised exception does. When the rows are the store's own
     * and the cache starts empty, as after the constructor, the cache ends up holding
     * exactly the store's users.
     */
    method FetchDb(rows: seq<(int, string)>) returns (r: Outcome<Registry.Error>)
      requires Valid()
      modifies this
      ensures Valid()
      ensures (r, State()) == Registry.Replay(old(State()), rows, parseModules)
      ensures Registry.StoreRows(old(usersDb), rows) && old(usersCache) == map[] && old(order) == [] ==>
        && r == Pass
        && usersDb == old(usersDb)
        && Registry.InSync(State())
        && order == Registry.Ids(rows)
        && (forall id :: id in usersDb ==> id in usersCache && usersCache[id] == parseModules(usersDb[id]))
    {
      if Registry.StoreRows(usersDb, rows) && usersCache == map[] && order == [] {
        Registry.ReplayStore(usersDb, rows, parseModules);
      }
      r := Pass;
      var i := 0;
      while i < |rows|
        invariant 0 <= i <= |rows| && r == Pass
        invariant Valid()
        invariant Registry.Replay(State(), rows[i..], parseModules) == Registry.Replay(old(State()), rows, parseModules)
      {
        assert rows[i..][0] == rows[i] && rows[i..][1..] == rows[i + 1..];
        ghost var before := State();
        var (id, modules) := rows[i];
        r := AddUser(id, modules);
        if r.Fail? {
          assert Registry.Replay(before, rows[i..], parseModules) == (r, State());
          return;
        }
        assert Registry.Replay(before, rows[i..], parseModules) == Registry.Replay(State(), rows[i + 1..], parseModules);
        i := i + 1;
      }
      assert rows[i..] == [];
    }

    /**
     * `cmd_start`: a cached user gets the "already registered" reply; a new one is stored
     * with `DEFAULT_MODULES`, then cached through `AddUser`.
     */
    method CmdStart(id: int) returns (reply: Registry.StartReply)
      requires Valid()
      modifies this
      ensures Valid()
      ensures (reply, State()) == Registry.Start(old(State()), id, defaultModules, parseModules)
    {
      var user := GetUser(id);
      if user.Some? {
        return Registry.AlreadyRegistered;
      }
      usersDb := usersDb[id := defaultModules];
      var added := AddUser(id, defaultModules);
      reply := Registry.NowRegistered;
    }

    /**
     * `build_modules_menu`: one button per known module, in module order, labelled with
     * `' +'` or `' -'` by membership in the user's list, laid out two to a row. An
     * unknown user is an error (the source reads an attribute of None).
     */
    method ModulesMenu(id: int) returns (r: Result<seq<seq<Button>>, Registry.Error>)
      ensures r.Err? <==> id !in usersCache
      ensures r.Err? ==> r.error == Registry.NotRegistered
      ensures r.Ok? ==> r.value == Menu.BuildMenu(StatusButtons(allModules, usersCache[id]), 2, [], []).value
      ensures r.Ok? ==>
        var buttons := Menu.Flatten(r.value);
        && |buttons| == |allModules|
        && (forall k :: 0 <= k < |allModules| ==>
              buttons[k].data == allModules[k]
              && buttons[k].text == allModules[k] + Suffix(allModules[k] in usersCache[id]))
        && (forall i :: 0 <= i < |r.value| - 1 ==> |r.value[i]| == 2)
        && (r.value != [] ==> 0 < |r.value[|r.value| - 1]| <= 2)
    {
      var user := GetUser(id);
      if user.None? {
        return Err(Registry.NotRegistered);
      }
      var enabled := user.value;
      var btnList: seq<Button> := [];
      for k := 0 to |allModules|
        invariant btnList == StatusButtons(allModules[..k], enabled)
      {
        assert allModules[..k + 1][..k] == allModules[..k];
        btnList := btnList + [StatusButton(allModules[k], enabled)];
      }
      assert allModules[..|allModules|] == allModules;
      Menu.BuildMenuPlain(btnList, 2);
      StatusButtonsAt(allModules, enabled);
      r := Ok(Menu.BuildMenu(btnList, 2, [], []).value);
    }

    /**
     * `callback_handler`: toggles module `data` for the user, writes the colon-joined list
     * to the store, and answers "Switched <data> ON|OFF" with the refreshed menu.
     */
    method CallbackHandler(id: int, data: string) returns (r: Result<(string, seq<seq<Button>>), Registry.Error>)
      requires Valid()
      modifies this
      ensures Valid()
      ensures var t := Registry.ToggleUser(old(State()), id, data);
        && (t.Err? ==> r == Err(t.error) && State() == old(State()))
        && (t.Ok? ==>
              && State() == t.value.1
              && r.Ok?
              && r.value.0 == "Switched " + data + " " + t.value.0.Label()
              && r.value.1 == Menu.BuildMenu(StatusButtons(allModules, usersCache[id]), 2, [], []).value)
    {
      var user := GetUser(id);
      if user.None? {
        return Err(Registry.NotRegistered);
      }
      var modules := user.value;
      var sw: Switch;
      if data in modules {
        modules := RemoveFirst(modules, data);
        sw := Off;
      } else {
        modules := modules + [data];
        sw := On;
      }
      usersCache := usersCache[id := modules];
      usersDb := usersDb[id := Join(modules, ":")];
      var menu := ModulesMenu(id);
      r := Ok(("Switched " + data + " " + sw.Label(), menu.value));
    }

    /**
     * `job_scrape`: `results[k]` is what the scrape of the k-th module returned. Builds the
     * table `d` once, then sends every article of every enabled module to every cached
     * user, users in cache order, modules in list order, articles in returned order.
     */
    method JobScrape(results: seq<seq<Article>>) returns (sends: seq<Notification>)
      requires Valid() && |results| == |allModules|
      ensures sends == FanOut(order, usersCache, ScrapeTable(allModules, results))
    {
      var d := ScrapeAll(allModules, results);
      sends := [];
      for i := 0 to |order|
        invariant sends == FanOut(order[..i], usersCache, d)
      {
        assert order[..i + 1][..i] == order[..i];
        var user := order[i];
        var userSends := SendToUser(user, usersCache[user], d);
        sends := sends + userSends;
      }
      assert order[..|order|] == order;
    }
  }

  /** The first loop of `job_scrape`: `d[mod_name] = mod.scrape(...)` for each module in order. */
  method ScrapeAll(mods: seq<string>, results: seq<seq<Article>>) returns (d: map<string, seq<Article>>)
    requires |mods| == |results|
    ensures d == ScrapeTable(mods, results)
  {
    d := map[];
    for k := 0 to |mods|
      invariant d == ScrapeTable(mods[..k], results[..k])
    {
      assert mods[..k + 1][..k] == mods[..k];
      assert results[..k + 1][..k] == results[..k];
      d := d[mods[k] := results[k]];
    }
    assert mods[..|mods|] == mods && results[..|results|] == results;
  }

  /**
   * The two inner loops of `job_scrape` for one user: for each name on the list whose
   * `d.get` result is non-empty, one captioned photo per article.
   */
  method SendToUser(user: int, mods: seq<string>, d: map<string, seq<Article>>) returns (sends: seq<Notification>)
    ensures sends == UserSends(user, mods, d)
  {
    sends := [];
    for j := 0 to |mods|
      invariant sends == UserSends(user, mods[..j], d)
    {
      assert mods[..j + 1][..j] == mods[..j];
      var name := mods[j];
      var data := Lookup(d, name);
      ghost var start := sends;
      if data != [] {
        for k := 0 to |data|
          invariant sends == start + ArticleSends(user, name, data[..k])
        {
          assert data[..k + 1][..k] == data[..k];
          sends := sends + [Send(user, name, data[k])];
        }
        assert data[..|data|] == data;
      }
    }
    assert mods[..|mods|] == mods;
  }
}
