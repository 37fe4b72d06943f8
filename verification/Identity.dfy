/** Which native application a provider snapshot belongs to (internal/providers/registry.go). */
module Identity {
  import Text
  import opened Sorting
  import opened Surface
  import opened Registry

  // ----- Native identities -----

  function AfterLastSlash(s: string): string {
    if s == "" then "" else if s[|s| - 1] == '/' then "" else AfterLastSlash(s[..|s| - 1]) + [s[|s| - 1]]
  }

  function TrimPrefix(s: string, prefix: string): string {
    if prefix <= s then s[|prefix|..] else s
  }

  function TrimSuffix(s: string, suffix: string): string {
    if |suffix| <= |s| && s[|s| - |suffix|..] == suffix then s[..|s| - |suffix|] else s
  }

  /** identityKeys: the exact name, and its stem when that holds no white space. */
  function IdentityKeys(value: string): set<string> {
    var v := AfterLastSlash(TrimSuffix(TrimPrefix(Lower(Text.TrimSpace(value)), "application://"), "/"));
    var stem := TrimSuffix(v, ".desktop");
    if v == "" then {}
    else if stem != "" && forall i :: 0 <= i < |stem| ==> !Text.IsSpace(stem[i]) then {"exact:" + v, "stem:" + stem}
    else {"exact:" + v}
  }

  function SnapKeys(s: Snap): set<string> {
    var values := [s.appId, s.desktopAppId] + s.hints;
    set v, k | v in values && k in IdentityKeys(v) :: k
  }

  predicate Fresh(s: Snap, now: int) {
    s.observedAt <= now + SECOND && now - s.observedAt <= s.ttl
  }

  /** From identity key to application; the empty name marks an ambiguous key. */
  type Index = map<string, string>

  function AddKeys(index: Index, keys: set<string>, app: string): Index {
    map k | k in index.Keys + keys :: if k !in keys then index[k] else if k in index && index[k] != app then "" else app
  }

  /** buildNativeIdentityIndex, folded over the snapshots in their order. */
  function IndexOf(snaps: seq<Snap>, now: int): Index {
    if snaps == [] then map[]
    else
      var s, index := snaps[|snaps| - 1], IndexOf(snaps[..|snaps| - 1], now);
      if s.kind == Native && Fresh(s, now) then AddKeys(index, SnapKeys(s), s.appId) else index
  }

  /** The inner loop of buildNativeIdentityIndex; the keys may be visited in any order. */
  method AddAllKeys(before: Index, keys: set<string>, app: string) returns (index: Index)
    ensures index == AddKeys(before, keys, app)
  {
    index := before;
    var todo := keys;
    while todo != {}
      invariant todo <= keys && index == AddKeys(before, keys - todo, app)
    {
      var key :| key in todo;
      if key in index && index[key] != app {
        index := index[key := ""];
      } else {
        index := index[key := app];
      }
      todo := todo - {key};
    }
    assert keys - {} == keys;
  }

  /** buildNativeIdentityIndex as written. */
  method BuildIndex(snaps: seq<Snap>, now: int) returns (index: Index)
    ensures index == IndexOf(snaps, now)
  {
    index := map[];
    for i := 0 to |snaps|
      invariant index == IndexOf(snaps[..i], now)
    {
      assert snaps[..i + 1][..i] == snaps[..i] && snaps[..i + 1][i] == snaps[i];
      hide SnapKeys, AddKeys;
      var s := snaps[i];
      if s.kind != Native || !Fresh(s, now) { continue; }
      index := AddAllKeys(index, SnapKeys(s), s.appId);
    }
    assert snaps[..|snaps|] == snaps;
  }

  predicate Carries(s: Snap, now: int, key: string) {
    s.kind == Native && Fresh(s, now) && key in SnapKeys(s)
  }

  /** What an index means: a key is present exactly when a fresh native snapshot carries it, and it
      names an application exactly when every one that carries it is that application. */
  ghost predicate KeyMeans(index: Index, snaps: seq<Snap>, now: int, k: string) {
    && (k in index <==> Carried(snaps, now, k))
    && (k in index && index[k] != "" ==> CarriedOnlyBy(snaps, now, k, index[k]))
    && (k in index && index[k] == "" ==> CarriedByTwo(snaps, now, k))
  }

  ghost predicate IsIndex(index: Index, snaps: seq<Snap>, now: int) {
    forall k :: KeyMeans(index, snaps, now, k)
  }

  ghost predicate NamedApps(snaps: seq<Snap>) {
    forall s :: s in snaps ==> s.appId != ""
  }

  ghost predicate Carried(snaps: seq<Snap>, now: int, k: string) {
    exists s :: s in snaps && Carries(s, now, k)
  }

  ghost predicate CarriedOnlyBy(snaps: seq<Snap>, now: int, k: string, app: string) {
    forall s :: s in snaps && Carries(s, now, k) ==> s.appId == app
  }

  ghost predicate CarriedByTwo(snaps: seq<Snap>, now: int, k: string) {
    exists s, t :: s in snaps && t in snaps && Carries(s, now, k) && Carries(t, now, k) && s.appId != t.appId
  }

  lemma CarriedNext(snaps: seq<Snap>, s: Snap, now: int, k: string, app: string)
    ensures Carried(snaps + [s], now, k) <==> Carried(snaps, now, k) || Carries(s, now, k)
    ensures CarriedOnlyBy(snaps + [s], now, k, app) <==>
            CarriedOnlyBy(snaps, now, k, app) && (Carries(s, now, k) ==> s.appId == app)
    ensures CarriedByTwo(snaps, now, k) ==> CarriedByTwo(snaps + [s], now, k)
    ensures Carries(s, now, k) && Carried(snaps, now, k) && CarriedOnlyBy(snaps, now, k, app) && app != s.appId ==>
              CarriedByTwo(snaps + [s], now, k)
  {
    hide Carries;
    var all := snaps + [s];
    assert s in all && forall x :: x in all <==> x in snaps || x == s;
  }

  lemma KeyNext(index: Index, snaps: seq<Snap>, s: Snap, now: int, k: string, next: Index)
    requires KeyMeans(index, snaps, now, k) && s.appId != ""
    requires next == if s.kind == Native && Fresh(s, now) then AddKeys(index, SnapKeys(s), s.appId) else index
    ensures KeyMeans(next, snaps + [s], now, k)
  {
    var app := if k in index then index[k] else s.appId;
    CarriedNext(snaps, s, now, k, app);
    if !Carries(s, now, k) {
      assert k in next <==> k in index;
      assert k in index ==> next[k] == index[k];
      hide AddKeys, SnapKeys, Carried, CarriedOnlyBy, CarriedByTwo, Carries, Fresh;
    } else {
      assert k in next && next[k] == if k in index && index[k] != s.appId then "" else s.appId;
      NotCarried(snaps, now, k, s.appId);
      hide AddKeys, SnapKeys, Carried, CarriedOnlyBy, CarriedByTwo, Carries, Fresh;
    }
  }

  lemma NotCarried(snaps: seq<Snap>, now: int, k: string, app: string)
    ensures !Carried(snaps, now, k) ==> CarriedOnlyBy(snaps, now, k, app)
  {
  }

  lemma IndexNext(index: Index, snaps: seq<Snap>, s: Snap, now: int)
    requires IsIndex(index, snaps, now) && s.appId != ""
    ensures IsIndex(if s.kind == Native && Fresh(s, now) then AddKeys(index, SnapKeys(s), s.appId) else index,
                    snaps + [s], now)
  {
    var next := if s.kind == Native && Fresh(s, now) then AddKeys(index, SnapKeys(s), s.appId) else index;
    hide KeyMeans;
    forall k ensures KeyMeans(next, snaps + [s], now, k) { KeyNext(index, snaps, s, now, k, next); }
  }

  lemma NothingIndexed(now: int)
    ensures IsIndex(map[], [], now)
  {
  }

  /** The index is what its meaning says, whatever the order of the snapshots. */
  lemma {:induction false} IndexMeaning(snaps: seq<Snap>, now: int)
    requires NamedApps(snaps)
    ensures IsIndex(IndexOf(snaps, now), snaps, now)
  {
    hide IsIndex, AddKeys, Fresh, SnapKeys;
    if snaps == [] {
      NothingIndexed(now);
    } else {
      var init := snaps[..|snaps| - 1];
      assert snaps == init + [snaps[|snaps| - 1]];
      IndexMeaning(init, now);
      IndexNext(IndexOf(init, now), init, snaps[|snaps| - 1], now);
    }
  }

  lemma IndexUnique(a: Index, b: Index, s: seq<Snap>, t: seq<Snap>, now: int)
    requires IsIndex(a, s, now) && IsIndex(b, t, now) && forall x :: x in s <==> x in t
    ensures a == b
  {
    hide Carries;
    forall k ensures (k in a <==> k in b) && (k in a ==> a[k] == b[k]) {
      assert KeyMeans(a, s, now, k) && KeyMeans(b, t, now, k);
    }
  }

  /** So the index is an order-independent fold. */
  lemma IndexOrderIndependent(s: seq<Snap>, t: seq<Snap>, now: int)
    requires multiset(s) == multiset(t) && NamedApps(s)
    ensures IndexOf(s, now) == IndexOf(t, now)
  {
    MembersOfPermutation(s, t);
    IndexMeaning(s, now);
    IndexMeaning(t, now);
    IndexUnique(IndexOf(s, now), IndexOf(t, now), s, t, now);
  }

  /** Once a key is ambiguous it stays ambiguous as more snapshots are folded in. */
  lemma {:induction false} AmbiguityIsFinal(snaps: seq<Snap>, more: seq<Snap>, now: int, key: string)
    requires NamedApps(snaps + more) && key in IndexOf(snaps, now) && IndexOf(snaps, now)[key] == ""
    ensures key in IndexOf(snaps + more, now) && IndexOf(snaps + more, now)[key] == ""
  {
    hide IdentityKeys, Fresh, SnapKeys, AddKeys, IndexOf;
    forall x | x in snaps ensures x in snaps + more { }
    IndexMeaning(snaps, now);
    IndexMeaning(snaps + more, now);
    assert KeyMeans(IndexOf(snaps, now), snaps, now, key);
    assert KeyMeans(IndexOf(snaps + more, now), snaps + more, now, key);
    var x, y :| x in snaps && y in snaps && Carries(x, now, key) && Carries(y, now, key) && x.appId != y.appId;
    assert x in snaps + more && y in snaps + more;
  }

  function Candidates(s: Snap, index: Index): set<string> {
    set k | k in SnapKeys(s) && k in index && index[k] != "" :: index[k]
  }

  /** resolveNativeIdentity: retarget only when the unambiguous keys name exactly one application. */
  ghost predicate ResolvesTo(s: Snap, index: Index, app: string) {
    Candidates(s, index) == {app}
  }

  method Resolve(s: Snap, index: Index) returns (app: string, ok: bool)
    ensures ok ==> ResolvesTo(s, index, app)
    ensures !ok ==> forall a :: !ResolvesTo(s, index, a)
  {
    var candidates: set<string> := {};
    var keys := SnapKeys(s);
    var todo := keys;
    hide SnapKeys;
    while todo != {}
      invariant todo <= keys
      invariant candidates == set k | k in keys - todo && k in index && index[k] != "" :: index[k]
    {
      var key :| key in todo;
      if key in index && index[key] != "" { candidates := candidates + {index[key]}; }
      todo := todo - {key};
    }
    assert candidates == Candidates(s, index);
    if |candidates| != 1 {
      forall a ensures !ResolvesTo(s, index, a) { }
      return "", false;
    }
    app :| app in candidates;
    Singleton(candidates, app);
    ok := true;
  }

  lemma Singleton(s: set<string>, x: string)
    requires |s| == 1 && x in s
    ensures s == {x}
  {
    assert |s - {x}| == 0;
  }

  // ----- Who is resolved, told without the index -----

  /** Some fresh native snapshot carries the key, and all that do are this application. */
  ghost predicate NamesOnly(snaps: seq<Snap>, now: int, k: string, app: string) {
    Carried(snaps, now, k) && CarriedOnlyBy(snaps, now, k, app)
  }

  /** A snapshot resolves to an application exactly when one of its keys names that application alone and
      none of its keys names another one alone. */
  lemma ResolvesExactly(s: Snap, snaps: seq<Snap>, now: int, app: string)
    requires NamedApps(snaps) && app != ""
    ensures ResolvesTo(s, IndexOf(snaps, now), app) <==>
            && (exists k :: k in SnapKeys(s) && NamesOnly(snaps, now, k, app))
            && forall k, b :: k in SnapKeys(s) && NamesOnly(snaps, now, k, b) ==> b == app
  {
    hide IndexOf, SnapKeys, Fresh, NamesOnly;
    IndexMeaning(snaps, now);
    var index, keys := IndexOf(snaps, now), SnapKeys(s);
    forall k, b ensures NamesOnly(snaps, now, k, b) <==> k in index && index[k] == b != "" {
      KeyNamesOnly(index, snaps, now, k, b);
    }
    if ResolvesTo(s, index, app) {
      assert app in Candidates(s, index);
      forall k, b | k in keys && NamesOnly(snaps, now, k, b) ensures b == app {
        assert index[k] in Candidates(s, index);
      }
    }
    if exists k :: k in keys && NamesOnly(snaps, now, k, app) {
      if forall k, b :: k in keys && NamesOnly(snaps, now, k, b) ==> b == app {
        var k :| k in keys && NamesOnly(snaps, now, k, app);
        assert index[k] in Candidates(s, index);
        forall b ensures b in Candidates(s, index) <==> b == app {
          if b in Candidates(s, index) {
            var j :| j in keys && j in index && index[j] != "" && index[j] == b;
            assert NamesOnly(snaps, now, j, b);
          }
        }
      }
    }
  }

  lemma KeyNamesOnly(index: Index, snaps: seq<Snap>, now: int, k: string, app: string)
    requires IsIndex(index, snaps, now) && NamedApps(snaps)
    ensures NamesOnly(snaps, now, k, app) <==> k in index && index[k] == app != ""
  {
    hide Carries;
    assert KeyMeans(index, snaps, now, k);
    if NamesOnly(snaps, now, k, app) {
      var s :| s in snaps && Carries(s, now, k);
      assert s.appId == app;
    }
  }

  // ----- Spellings of a name -----

  /** A name in lower case without slash, white space or the ending of a desktop file. */
  ghost predicate PlainName(n: string) {
    && n != "" && (forall i :: 0 <= i < |n| ==> n[i] != '/' && !Text.IsSpace(n[i]))
    && TrimSuffix(n, ".desktop") == n
  }

  ghost predicate NoSlash(s: string) {
    s != "" && forall i :: 0 <= i < |s| ==> s[i] != '/'
  }

  lemma {:induction false} LastPart(p: string, x: string)
    requires (p == "" || p[|p| - 1] == '/') && forall i :: 0 <= i < |x| ==> x[i] != '/'
    ensures AfterLastSlash(p + x) == x
    decreases |x|
  {
    if x == "" {
      assert p + x == p;
    } else {
      var n := |x| - 1;
      assert (p + x)[..|p + x| - 1] == p + x[..n] && (p + x)[|p + x| - 1] == x[n];
      LastPart(p, x[..n]);
      assert x == x[..n] + [x[n]];
    }
  }

  lemma PrefixWithinPath(p: string, x: string)
    requires "application://" <= p + x && NoSlash(x)
    ensures |p| >= 14
  {
    assert (p + x)[13] == "application://"[13] == '/';
  }

  /** The name that is left of a path, an application reference or a name by itself. */
  lemma NameOfPath(p: string, x: string)
    requires (p == "" || p[|p| - 1] == '/') && NoSlash(x)
    ensures AfterLastSlash(TrimSuffix(TrimPrefix(p + x, "application://"), "/")) == x
  {
    var s, prefix := p + x, "application://";
    assert prefix[12] == '/' && prefix[13] == '/' && |prefix| == 14;
    assert s[|s| - 1] == x[|x| - 1];
    if prefix <= s {
      PrefixWithinPath(p, x);
      assert s[14..] == p[14..] + x;
      var rest := p[14..];
      assert rest != "" ==> rest[|rest| - 1] == p[|p| - 1];
      NoTrailingSlash(rest + x);
      LastPart(rest, x);
    } else {
      NoTrailingSlash(s);
      LastPart(p, x);
    }
  }

  lemma NoTrailingSlash(s: string)
    requires s != "" && s[|s| - 1] != '/'
    ensures TrimSuffix(s, "/") == s
  {
    assert s[|s| - 1..] == [s[|s| - 1]];
  }

  /** An application is recognised under every spelling: by its name or the name of its desktop file, alone or
      at the end of a path or an application reference, in any case and with white space around it. */
  lemma SpellingsMeet(value: string, p: string, n: string, file: bool)
    requires PlainName(n) && (p == "" || p[|p| - 1] == '/')
    requires Lower(Text.TrimSpace(value)) == p + (n + if file then ".desktop" else "")
    ensures IdentityKeys(value) == {"exact:" + (n + if file then ".desktop" else ""), "stem:" + n}
  {
    hide Lower, Text.TrimSpace, AfterLastSlash, TrimPrefix;
    var x := n + if file then ".desktop" else "";
    assert forall i :: 0 <= i < |x| ==> x[i] == if i < |n| then n[i] else ".desktop"[i - |n|];
    NameOfPath(p, x);
    if file {
      assert x[|x| - 8..] == ".desktop" && x[..|x| - 8] == n;
    } else {
      assert x == n;
    }
  }

  /** The keys of a snapshot are those of its application, its desktop file and its hints. */
  lemma SnapKeysMeaning(s: Snap, k: string)
    ensures k in SnapKeys(s) <==>
            k in IdentityKeys(s.appId) || k in IdentityKeys(s.desktopAppId) ||
            exists h :: h in s.hints && k in IdentityKeys(h)
  {
    hide IdentityKeys;
    var values := [s.appId, s.desktopAppId] + s.hints;
    assert values[0] == s.appId && values[1] == s.desktopAppId;
    assert forall v :: v in values <==> v == s.appId || v == s.desktopAppId || v in s.hints;
  }
}
