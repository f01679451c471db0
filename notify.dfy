/**
 * What one run of `TelegramSession.job_scrape` sends: every module is scraped once into
 * a table `d`, then for every cached user (in cache order), every name in that user's
 * list (in list order) and every article the module returned (in returned order) one
 * photo with a caption goes to the user. The sends are returned as a sequence.
 */
module Notify {
  import opened Subscriptions

  /** One scraped item: the `header`, `text`, `link` and `img` entries of an article dict. */
  datatype Article = Article(header: string, text: string, link: string, img: string)

  /** One `sendPhoto` call: the chat (user id), the module it came from, the article and the caption. */
  datatype Notification = Notification(user: int, moduleName: string, article: Article, caption: string)

  /** The Markdown caption of an article from module `name`. */
  function Caption(name: string, a: Article): string
  {
    name + ":* " + a.header + "*\n\nRead at [" + name + "](" + a.link + ")\n\n" + a.text + "\n"
  }

  function Send(user: int, name: string, a: Article): Notification
  {
    Notification(user, name, a, Caption(name, a))
  }

  /**
   * The table `d` after the first loop: `d[mod_name] = mod.scrape(...)` for each module in
   * order, `results[k]` being what the k-th call returned; the module objects that
   * `dict(ALL_MODULES)` put there first are all overwritten.
   */
  function ScrapeTable(mods: seq<string>, results: seq<seq<Article>>): map<string, seq<Article>>
    requires |mods| == |results|
    decreases |mods|
  {
    if mods == [] then map[]
    else ScrapeTable(mods[..|mods| - 1], results[..|results| - 1])[mods[|mods| - 1] := results[|results| - 1]]
  }

  /** `d.get(mod)`, with a missing or empty result alike giving no articles. */
  function Lookup(d: map<string, seq<Article>>, name: string): seq<Article>
  {
    if name in d then d[name] else []
  }

  /** The sends for one module of one user: one per article, in order. */
  function ArticleSends(user: int, name: string, arts: seq<Article>): seq<Notification>
    decreases |arts|
  {
    if arts == [] then []
    else ArticleSends(user, name, arts[..|arts| - 1]) + [Send(user, name, arts[|arts| - 1])]
  }

  /** The sends for one user: the module names of the list, in order. */
  function UserSends(user: int, mods: seq<string>, d: map<string, seq<Article>>): seq<Notification>
    decreases |mods|
  {
    if mods == [] then []
    else UserSends(user, mods[..|mods| - 1], d) + ArticleSends(user, mods[|mods| - 1], Lookup(d, mods[|mods| - 1]))
  }

  /** The sends of a whole run: the users in cache order. */
  function FanOut(users: seq<int>, cache: map<int, seq<string>>, d: map<string, seq<Article>>): seq<Notification>
    requires forall u :: u in users ==> u in cache
    decreases |users|
  {
    if users == [] then []
    else FanOut(users[..|users| - 1], cache, d) + UserSends(users[|users| - 1], cache[users[|users| - 1]], d)
  }

  /** When the module names are distinct (dictionary keys), each name maps to its own call's result. */
  lemma {:induction false} ScrapeTableAt(mods: seq<string>, results: seq<seq<Article>>)
    requires |mods| == |results| && NoDup(mods)
    ensures forall m :: m in ScrapeTable(mods, results) <==> m in mods
    ensures forall k :: 0 <= k < |mods| ==> ScrapeTable(mods, results)[mods[k]] == results[k]
    decreases |mods|
  {
    if mods != [] {
      var n := |mods| - 1;
      var front := mods[..n];
      assert NoDup(front);
      ScrapeTableAt(front, results[..n]);
      assert mods == front + [mods[n]];
      forall k | 0 <= k < n ensures ScrapeTable(mods, results)[mods[k]] == results[k] {
        assert mods[k] != mods[n];
        assert mods[k] == front[k];
      }
    }
  }

  /** One send per article, in the order the module returned them. */
  lemma {:induction false} ArticleSendsAt(user: int, name: string, arts: seq<Article>)
    ensures |ArticleSends(user, name, arts)| == |arts|
    ensures forall k :: 0 <= k < |arts| ==> ArticleSends(user, name, arts)[k] == Send(user, name, arts[k])
    decreases |arts|
  {
    if arts != [] {
      ArticleSendsAt(user, name, arts[..|arts| - 1]);
    }
  }

  /** A user's sends for a list split in two are the sends for each part, one after the other. */
  lemma {:induction false} UserSendsAppend(user: int, a: seq<string>, b: seq<string>, d: map<string, seq<Article>>)
    ensures UserSends(user, a + b, d) == UserSends(user, a, d) + UserSends(user, b, d)
    decreases |b|
  {
    if b != [] {
      var n := |b| - 1;
      assert (a + b)[..|a + b| - 1] == a + b[..n];
      UserSendsAppend(user, a, b[..n], d);
    } else {
      assert a + b == a;
    }
  }

  /** The sends for users split in two are the first users' sends, then the others'. */
  lemma {:induction false} FanOutAppend(a: seq<int>, b: seq<int>, cache: map<int, seq<string>>, d: map<string, seq<Article>>)
    requires forall u :: u in a + b ==> u in cache
    ensures FanOut(a + b, cache, d) == FanOut(a, cache, d) + FanOut(b, cache, d)
    decreases |b|
  {
    if b != [] {
      var n := |b| - 1;
      assert (a + b)[..|a + b| - 1] == a + b[..n];
      FanOutAppend(a, b[..n], cache, d);
    } else {
      assert a + b == a;
    }
  }

  /** A send for a module of a user is one of that module's articles, captioned. */
  lemma ArticleSendsMember(user: int, name: string, arts: seq<Article>, x: Notification)
    ensures x in ArticleSends(user, name, arts) <==>
      x.user == user && x.moduleName == name && x.article in arts && x.caption == Caption(name, x.article)
  {
  }

  /** A user's sends are the captioned articles of the names on the list that returned some. */
  lemma {:induction false} UserSendsMember(user: int, mods: seq<string>, d: map<string, seq<Article>>, x: Notification)
    ensures x in UserSends(user, mods, d) <==>
      x.user == user && x.moduleName in mods && x.article in Lookup(d, x.moduleName)
      && x.caption == Caption(x.moduleName, x.article)
    decreases |mods|
  {
    if mods != [] {
      var n := |mods| - 1;
      UserSendsMember(user, mods[..n], d, x);
      ArticleSendsMember(user, mods[n], Lookup(d, mods[n]), x);
      assert mods == mods[..n] + [mods[n]];
    }
  }

  /**
   * The sends of a run are exactly the captioned (user, module, article) triples where the
   * user is cached, the module is on the user's list and the article is one it returned.
   */
  lemma {:induction false} FanOutMember(users: seq<int>, cache: map<int, seq<string>>, d: map<string, seq<Article>>, x: Notification)
    requires forall u :: u in users ==> u in cache
    ensures x in FanOut(users, cache, d) <==>
      x.user in users && x.moduleName in cache[x.user] && x.article in Lookup(d, x.moduleName)
      && x.caption == Caption(x.moduleName, x.article)
    decreases |users|
  {
    if users != [] {
      var n := |users| - 1;
      FanOutMember(users[..n], cache, d, x);
      UserSendsMember(users[n], cache[users[n]], d, x);
      assert users == users[..n] + [users[n]];
    }
  }

  /**
   * The sends of a run for scrape results taken in module order: a triple is sent exactly
   * when its user is cached, its module is on the user's list and is a known module, and
   * its article is among those that module's scrape call returned.
   */
  lemma RunMember(users: seq<int>, cache: map<int, seq<string>>, mods: seq<string>,
                  results: seq<seq<Article>>, x: Notification)
    requires forall u :: u in users ==> u in cache
    requires |mods| == |results| && NoDup(mods)
    ensures x in FanOut(users, cache, ScrapeTable(mods, results)) <==>
      && x.user in users && x.moduleName in cache[x.user]
      && x.moduleName in mods && x.article in results[IndexOf(mods, x.moduleName)]
      && x.caption == Caption(x.moduleName, x.article)
  {
    FanOutMember(users, cache, ScrapeTable(mods, results), x);
    ScrapeTableAt(mods, results);
  }

  /**
   * A run with two modules, "news" returning two articles and "sports" none, and two
   * users, one on ["news"] and one on ["news", "sports"]: each user gets both news
   * articles and nothing for sports.
   */
  lemma NewsAndSports(a1: Article, a2: Article)
    ensures var d := ScrapeTable(["news", "sports"], [[a1, a2], []]);
      var cache := map[1 := ["news"], 2 := ["news", "sports"]];
      FanOut([1, 2], cache, d) ==
        [Send(1, "news", a1), Send(1, "news", a2), Send(2, "news", a1), Send(2, "news", a2)]
  {
    var d := ScrapeTable(["news", "sports"], [[a1, a2], []]);
    assert ["news", "sports"][..1] == ["news"] && ["news"][..0] == [];
    assert ScrapeTable(["news"], [[a1, a2]]) == map["news" := [a1, a2]];
    assert d == map["news" := [a1, a2], "sports" := []];
    var news := [a1, a2];
    ArticleSendsAt(1, "news", news);
    ArticleSendsAt(2, "news", news);
    var cache := map[1 := ["news"], 2 := ["news", "sports"]];
    var one := UserSends(1, ["news"], d);
    var two := UserSends(2, ["news", "sports"], d);
    assert one == [Send(1, "news", a1), Send(1, "news", a2)] by {
      assert one == UserSends(1, [], d) + ArticleSends(1, "news", news);
    }
    assert two == [Send(2, "news", a1), Send(2, "news", a2)] by {
      assert two == UserSends(2, ["news"], d) + ArticleSends(2, "sports", []);
      assert UserSends(2, ["news"], d) == UserSends(2, [], d) + ArticleSends(2, "news", news);
    }
    assert [1, 2][..1] == [1] && [1][..0] == [];
    assert FanOut([1], cache, d) == one;
    assert FanOut([1, 2], cache, d) == one + two;
  }
}
