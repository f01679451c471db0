# news_scraper subscription core in Dafny

This project models the in-memory subscription logic of the news_scraper Telegram bot's
`TelegramSession` class. The bot keeps a cache of registered users. Each user has a list of
enabled scraper modules. On `/start` a user is registered with the default modules. An inline
keyboard callback switches one module on or off. A periodic job scrapes every module once and
sends each enabled module's articles to each user.

Modules:

- `Wrappers` (wrappers.dfy): `Option`, `Result` and `Outcome`. They stand in for `None` and for raised exceptions.
- `Menu` (menu.dfy): `build_menu`, as a generic function from a button list to rows.
- `Subscriptions` (subscriptions.dfy): what the toggle does to a module list. This covers
  `list.remove` of the first occurrence, `list.append` and `':'.join`.
- `Registry` (registry.dfy): the session state as a value: the cache, the cache's insertion
  order and the user store. It defines `add_user`, `fetch_db`, `cmd_start` and the callback
  toggle as functions on that value.
- `Notify` (notify.dfy): what one run of `job_scrape` sends, as a sequence of notifications.
- `Session` (session.dfy): the class `TelegramSession`. Its fields `usersCache`, `order`
  and `usersDb` are updated in place. Each method is proved against the functions above.
  The loops of `fetch_db`, `build_modules_menu` and `job_scrape` are `while`/`for` loops
  with invariants.

Inputs the model takes as parameters:

- `allModules`: the keys of `ALL_MODULES` in iteration order. They are distinct, because they
  are dictionary keys.
- `defaultModules`: the `DEFAULT_MODULES` string.
- `parseModules`: how the `TelegramUser` constructor turns a module string into
  `enabled_modules`.
- The rows `get_all_users` returns.
- `results[k]`: what the k-th module's `scrape` call returned.

Notes on the code:

- The caption is `mod + ":* " + header + "*\n\nRead at [" + mod + "](" + link + ")\n\n" + text + "\n"`,
  as the format string in TelegramSession.py:135-136 produces.
- Registering an id that is already cached raises `SessionException` (TelegramSession.py:40-41).
- `DEFAULT_MODULES` (the `.py` files of the directory) and `ALL_MODULES` (every entry except
  `__pycache__`) are computed with different filters. The model keeps them as two
  independent inputs and does not derive one from the other.

## Model

| member | source | states |
|---|---|---|
| Menu.BuildMenu | TelegramSession.py:28-34 | the layout fails (ValueError of `range`) exactly when the column count is zero |
| Menu.Chunks | TelegramSession.py:29 | defines the rows of the comprehension, `n` buttons at a time; no contract of its own |
| Menu.ChunksFlatten | TelegramSession.py:29 | reading the rows one after another gives back the buttons in order |
| Menu.ChunksShape | TelegramSession.py:29 | every row but the last has exactly n buttons; the last has 1 to n; no buttons give no rows |
| Menu.ChunksCount | TelegramSession.py:29 | the number of rows is the least count whose rows of n cover the buttons, as many as `range(0, len, n)` yields |
| Menu.ChunksRow | TelegramSession.py:29 | row i is the slice of the buttons from i*n to i*n+n, clipped at the end, as in the comprehension |
| Menu.BuildMenuPlain | TelegramSession.py:28-34 | with n > 0 and no header or footer, the menu flattens to the buttons, its rows are full except a non-empty last one, and it has no rows iff there are no buttons |
| Menu.BuildMenuFrame | TelegramSession.py:30-33 | a non-empty header is the first row and a non-empty footer the last row; an empty one adds no row; the button rows between them are unchanged |
| Subscriptions.Toggle | TelegramSession.py:114-119 | defines the new list: the name's first copy removed if present, else the name appended; no contract of its own |
| Subscriptions.SwitchFor | TelegramSession.py:114-119 | defines the reported switch: OFF when the name was present, else ON; no contract of its own |
| Subscriptions.Join | TelegramSession.py:121 | defines Python's `sep.join`; no contract of its own |
| Subscriptions.Switch.Label | TelegramSession.py:114-119 | defines the feedback word, 'OFF' for a switched-off module and 'ON' for a switched-on one; no contract of its own |
| Subscriptions.IndexOf | TelegramSession.py:115 | the index found holds the name and no earlier position does (the first occurrence) |
| Subscriptions.RemoveFirst | TelegramSession.py:115 | `list.remove` is the list with exactly its first occurrence of the name cut out |
| Subscriptions.ToggleCounts | TelegramSession.py:114-119 | the toggle removes one copy of a present name or adds one copy of an absent one, and leaves every other name's count alone |
| Subscriptions.ToggleFlips | TelegramSession.py:114-119 | on a list without duplicates the toggled name's membership flips and every other name's membership is unchanged |
| Subscriptions.ToggleKeepsNoDup | TelegramSession.py:114-119 | the toggle keeps a duplicate-free list duplicate-free |
| Subscriptions.ToggleTwiceAbsent | TelegramSession.py:114-119 | appending an absent name and then removing it restores the list exactly |
| Subscriptions.ToggleTwicePresent | TelegramSession.py:114-119 | on a duplicate-free list, removing then appending a present name restores membership, with the name moved to the end |
| Subscriptions.JoinAppend | TelegramSession.py:118-121 | the join of a non-empty list with a name appended is the old join, then ':', then the name |
| Registry.AddUser | TelegramSession.py:39-43 | defines `add_user` on the state value; no contract of its own |
| Registry.AddUserSpec | TelegramSession.py:39-43 | an id already cached gives SessionException and no change; a new id adds exactly that key with the parsed modules, appends it to the order, leaves other entries and the store alone, and keeps the state valid |
| Registry.Replay | TelegramSession.py:58-64 | defines `fetch_db` as `add_user` on each row in turn, stopping at the first error; no contract of its own |
| Registry.ReplayKeeps | TelegramSession.py:58-64 | replaying store rows keeps the state valid and leaves the store and every user cached before alone, also when a row fails |
| Registry.ReplayOutcome | TelegramSession.py:58-64 | the replay succeeds exactly when the rows' ids are distinct and none is cached yet; a failure is SessionException |
| Registry.ReplayPass | TelegramSession.py:58-64 | a successful replay caches exactly the old users and the rows' users, appends the row ids in row order, and gives each row's user the parse of its module string |
| Registry.ReplayPassOrder | TelegramSession.py:58-64 | a successful replay appends the rows' ids to the cache order, in row order |
| Registry.ReplayPassKeys | TelegramSession.py:58-64 | after a successful replay a user is cached exactly when it was cached before or is the id of some row |
| Registry.ReplayPassValues | TelegramSession.py:58-64 | after a successful replay each row's user holds the parse of that row's module string |
| Registry.StoreRows | TelegramSession.py:59 | defines the condition the model assumes of the rows the store returns: each store entry exactly once, with its id and module string; no contract of its own |
| Registry.ReplayStore | TelegramSession.py:58-64 | replaying rows that list each store entry exactly once into an empty cache succeeds, leaves the store alone, caches exactly the store's users with the parse of each stored module string, in row order, and leaves cache and store in step |
| Registry.StartReply.Text | TelegramSession.py:71-75 | defines the two reply texts of `/start`; no contract of its own |
| Registry.Start | TelegramSession.py:66-75 | a registered user gets the "already registered" reply and nothing changes; a new user gets DEFAULT_MODULES in the store and its parse in the cache, is appended to the order, and no other entry changes |
| Registry.StartIdempotent | TelegramSession.py:66-75 | a second `/start` replies "already registered" and leaves the state of the first unchanged |
| Registry.StartKeepsInvariants | TelegramSession.py:66-75 | registration keeps the order consistent with the cache, and keeps the cache and the store on the same users |
| Registry.ToggleUser | TelegramSession.py:108-121 | toggling for an id that is not cached is an error, and for a cached id it succeeds |
| Registry.ToggleUserSpec | TelegramSession.py:112-121 | OFF iff the module was enabled; only this user's list and store row change; the row is the ':'-join of the new list; on a duplicate-free list the module flips, other modules stay, and no duplicate appears |
| Registry.ToggleUserKeepsInvariants | TelegramSession.py:112-121 | a toggle keeps the order consistent with the cache, and keeps cache and store on the same users |
| Registry.ToggleUserTwice | TelegramSession.py:113-121 | switching an absent module on and then off reports ON then OFF, restores the cache exactly, and leaves the join of the original list in the store |
| Notify.Caption | TelegramSession.py:135-136 | defines the caption the format string produces; no contract of its own |
| Notify.ScrapeTable | TelegramSession.py:126-128 | defines the table `d` the first loop builds; no contract of its own |
| Notify.Lookup | TelegramSession.py:132-133 | defines `d.get(mod)` with a missing and an empty result alike giving no articles; no contract of its own |
| Notify.Send | TelegramSession.py:137 | defines one `sendPhoto` call: the user, the module, the article and its caption; no contract of its own |
| Notify.ArticleSends | TelegramSession.py:134-137 | defines the sends for one module of one user; no contract of its own |
| Notify.UserSends | TelegramSession.py:131-137 | defines the sends for one user; no contract of its own |
| Notify.FanOut | TelegramSession.py:130-137 | defines the sends of a run, users in cache order; no contract of its own |
| Notify.ScrapeTableAt | TelegramSession.py:126-128 | the table holds exactly the module names, each mapped to its own scrape call's result |
| Notify.ArticleSendsAt | TelegramSession.py:134-137 | one send per article, in the returned order, each captioned by the format string |
| Notify.UserSendsAppend | TelegramSession.py:131-137 | a user's sends follow the order of the user's list: the sends for a split list are the sends for each part, concatenated |
| Notify.FanOutAppend | TelegramSession.py:130-137 | the sends follow cache order: the sends for a split user sequence are each part's sends, concatenated |
| Notify.ArticleSendsMember | TelegramSession.py:134-137 | a send for one module of one user is exactly a captioned article that the module returned |
| Notify.UserSendsMember | TelegramSession.py:131-137 | a user's sends are exactly the captioned articles of the listed names whose lookup gave articles; missing or empty results contribute nothing |
| Notify.FanOutMember | TelegramSession.py:130-137 | a run sends exactly the captioned (user, module, article) triples where the user is cached, the module is on the user's list and the article was returned for it |
| Notify.RunMember | TelegramSession.py:125-137 | with scrape results in module order, a triple is sent exactly when the user is cached, the module is on the user's list and is a known module, and the article is among that module's results |
| Notify.NewsAndSports | TelegramSession.py:125-137 | news giving two articles and sports none, with users on [news] and [news, sports]: each user gets both news articles, in order, and nothing for sports |
| Session.Suffix | TelegramSession.py:103 | defines the suffix ' +' for an enabled module and ' -' otherwise; no contract of its own |
| Session.StatusButton | TelegramSession.py:103-104 | defines one module's button: its name with the suffix, and the name as callback data; no contract of its own |
| Session.StatusButtons | TelegramSession.py:102-105 | defines the buttons `build_modules_menu` collects, one per known module; no contract of its own |
| Session.StatusButtonsAt | TelegramSession.py:102-105 | one button per known module, in module order, its data the module name |
| Session.StatusLabel | TelegramSession.py:103-104 | a label is the module name followed by ' +' exactly when the module is enabled, and by ' -' otherwise |
| Session.TelegramSession.constructor | TelegramSession.py:18-25 | a session starts with an empty cache and order and the given store |
| Session.TelegramSession.GetUser | TelegramSession.py:36-37 | None for an id that is not cached, otherwise that user's module list |
| Session.TelegramSession.AddUser | TelegramSession.py:39-43 | the new state and outcome are those of Registry.AddUser on the old state |
| Session.TelegramSession.FetchDb | TelegramSession.py:58-64 | the loop ends in the state and outcome of Registry.Replay on the old state, stopping at the first duplicate; when the rows are the store's own and the cache starts empty, it succeeds and the cache holds exactly the store's users, each with the parse of its stored module string |
| Session.TelegramSession.CmdStart | TelegramSession.py:66-75 | the reply and the new state are those of Registry.Start on the old state (store written first, then the cache) |
| Session.TelegramSession.ModulesMenu | TelegramSession.py:99-106 | an error for an unregistered user; otherwise build_menu of the status buttons in 2 columns, flattening to one button per module in order, with data the module name and label name+' +' iff enabled, else name+' -' |
| Session.TelegramSession.CallbackHandler | TelegramSession.py:108-123 | the new state is that of Registry.ToggleUser; the reply text is "Switched <module> ON/OFF" and comes with the menu rebuilt from the new list; an unregistered user is an error with no change |
| Session.TelegramSession.JobScrape | TelegramSession.py:125-137 | the sends are exactly FanOut over the users in cache order and the table built from one scrape result per module |
| Session.ScrapeAll | TelegramSession.py:126-128 | the table after the scrape loop is ScrapeTable of the modules and their results |
| Session.SendToUser | TelegramSession.py:130-137 | the inner loops for one user send exactly UserSends for that user's list |

## Left out

- Telegram transport: `Updater`, the dispatcher, handler registration (`init_logic`), `main_loop`, `reply_text`, `edit_message_text` and `sendPhoto`. Replies and sends are returned as values. Buttons are `(text, data)` pairs instead of `InlineKeyboardButton`/`InlineKeyboardMarkup` objects. The Markdown parse mode is not modelled.
- Job-queue scheduling (`run_repeating`, interval 10, first 1) is timing and is not modelled. `SCRAPE_INTERVAL` only goes to the scrapers, whose calls are inputs.
- Module discovery (`os.listdir`, `import_module`) is filesystem access and reflection. `allModules` and `defaultModules` are given.
- Scraper modules: each scrape call's result is the input `results[k]`, with one result per known module. A `None` result and an empty list are both the empty sequence, since `if data:` treats them alike. An exception raised by a scraper, which ends the run in the source, is not modelled.
- `TelegramUser` is not part of this model. Its conversion from the module string to `enabled_modules` is the parameter `parseModules`. No split/join round trip between the store and the cache is claimed.
- `DBHandler` (`SQLiteDB`) is not part of this model. The store is a map. `add_user` and `update_user` are map updates that insert or overwrite a row. Store failures are not modelled.
- `__init__` is the constructor followed by `FetchDb`. A class constructor cannot report the exception that `fetch_db` may raise, so the two are separate steps.
- Session.TelegramSession.FetchDb: the rows are a parameter, because `get_all_users` belongs to the store, which is not part of this model. That they are the store's rows is the condition `Registry.StoreRows` on `usersDb`, under which the cache is shown to end in step with the store.
- `cmd_fetch` calls `.scrape` on module names and fails for unregistered users, so its behaviour is not well defined. `cmd_debug` (prints) and `cmd_stop` (an empty stub) are also left out.
- `cmd_menu` only wraps `build_modules_menu` (modelled as `ModulesMenu`) in a reply.
- `TelegramUser` is not shown, so the model assumes three things about it. It defines neither `__bool__` nor `__len__`, so a cached user is truthy in `if user_obj:` (TelegramSession.py:70). Its constructor builds a fresh `enabled_modules` list, shared with no other record. Its `id` is the id it was built with, so the model uses the cache key for the `sendPhoto` chat (TelegramSession.py:137) and for the menu rebuilt after a toggle (TelegramSession.py:123).
- `callback_handler` changes the `enabled_modules` list object in place. The model writes the new list into the cache entry instead. Under the fresh-list assumption above, no other state sees a difference. Aliasing is not modelled.
- Raising on a missing user: the source raises AttributeError when it reads `.enabled_modules` of `None` in `build_modules_menu` and `callback_handler`. The model returns the error `NotRegistered` instead.
- Concurrency between the handler threads and the periodic job is not modelled. Every operation runs to completion on its own.
- Subscriptions.ToggleFlips: the flip of the toggled name is stated only for lists without duplicates. On a list with duplicates, removing the first copy leaves the name enabled. Subscriptions.ToggleCounts states the exact effect for every list.
