/** The bounded permission cache with expiry and a per-user index. */
module PermCache {
  import opened Common

  datatype Entry = Entry(value: bool, expires: int)

  /** The keys some user owns. */
  ghost predicate Indexed(byUser: map<int, set<string>>, key: string) {
    exists u :: u in byUser && key in byUser[u]
  }

  /** The index lists exactly the cached keys, each under one user, and no user without keys. */
  ghost predicate IndexMatches(entries: map<string, Entry>, byUser: map<int, set<string>>) {
    && (forall k :: k in entries ==> Indexed(byUser, k))
    && (forall u, k :: u in byUser && k in byUser[u] ==> k in entries)
    && (forall u :: u in byUser ==> byUser[u] != {})
    && (forall u, v, k :: u in byUser && v in byUser && k in byUser[u] && k in byUser[v] ==> u == v)
  }

  /** One map is a restriction of another. */
  ghost predicate Within(small: map<string, Entry>, large: map<string, Entry>) {
    forall k :: k in small ==> k in large && small[k] == large[k]
  }

  /** Every user has at most the keys it had. */
  ghost predicate Shrunk(after: map<int, set<string>>, before: map<int, set<string>>) {
    forall u :: u in after ==> u in before && after[u] <= before[u]
  }

  /** Every user has at most the keys it had, and one user may have one more. */
  ghost predicate Extended(after: map<int, set<string>>, before: map<int, set<string>>, user: int, key: string) {
    forall u :: u in after ==>
      after[u] <= (if u in before then before[u] else {}) + (if u == user then {key} else {})
  }

  /** The index without one key; users left without keys are dropped. */
  function Unindex(byUser: map<int, set<string>>, key: string): map<int, set<string>> {
    map u | u in byUser && byUser[u] - {key} != {} :: byUser[u] - {key}
  }

  lemma UnindexMatches(entries: map<string, Entry>, byUser: map<int, set<string>>, key: string)
    requires IndexMatches(entries, byUser)
    ensures IndexMatches(entries - {key}, Unindex(byUser, key))
  {
    var after := Unindex(byUser, key);
    forall k | k in entries - {key} ensures Indexed(after, k) {
      var u :| u in byUser && k in byUser[u];
      assert k in byUser[u] - {key};
      assert u in after && k in after[u];
    }
  }

  /** The loop over the users that takes one key out of every set. */
  method RemoveFromIndex(byUser: map<int, set<string>>, key: string) returns (index: map<int, set<string>>)
    ensures index == Unindex(byUser, key)
  {
    index := byUser;
    var todo := byUser.Keys;
    while todo != {}
      invariant todo <= byUser.Keys
      invariant index == map u | u in byUser && (u in todo || byUser[u] - {key} != {}) ::
                           if u in todo then byUser[u] else byUser[u] - {key}
      decreases |todo|
    {
      var u := AnyOf(todo);
      todo := todo - {u};
      if byUser[u] - {key} == {} {
        index := index - {u};
      } else {
        index := index[u := byUser[u] - {key}];
      }
    }
  }

  /** The loop that deletes a user's keys from the entries. */
  method DeleteAll(entries: map<string, Entry>, keys: set<string>) returns (rest: map<string, Entry>)
    ensures rest == entries - keys
  {
    rest := entries;
    var todo := keys;
    while todo != {}
      invariant todo <= keys && rest == entries - (keys - todo)
      decreases |todo|
    {
      var key := AnyOf(todo);
      assert keys - (todo - {key}) == (keys - todo) + {key};
      todo := todo - {key};
      rest := rest - {key};
    }
    assert keys - {} == keys;
  }

  lemma {:induction false} KeysFit(a: set<string>, b: set<string>)
    requires a <= b
    ensures |a| <= |b|
    decreases a
  {
    if a != {} {
      var x :| x in a;
      KeysFit(a - {x}, b - {x});
    }
  }

  /** The entries when those in `todo` are still to be looked at and the expired others are gone. */
  function Swept(entries: map<string, Entry>, todo: set<string>, now: int): map<string, Entry> {
    map k | k in entries && (k in todo || now <= entries[k].expires) :: entries[k]
  }

  lemma SweptStep(entries: map<string, Entry>, todo: set<string>, k: string, now: int)
    requires k in todo && k in entries
    ensures Swept(entries, todo - {k}, now) ==
            if now > entries[k].expires then Swept(entries, todo, now) - {k} else Swept(entries, todo, now)
  {
  }

  lemma SizeAfterDelete(entries: map<string, Entry>, key: string)
    ensures |entries - {key}| == if key in entries then |entries| - 1 else |entries|
  {
    assert (entries - {key}).Keys == entries.Keys - {key};
  }

  lemma SizeAfterSet(entries: map<string, Entry>, key: string, e: Entry)
    ensures |entries[key := e]| == if key in entries then |entries| else |entries| + 1
  {
    assert entries[key := e].Keys == entries.Keys + {key};
    if key in entries {
      assert entries.Keys + {key} == entries.Keys;
    }
  }

  lemma IndexAdds(entries: map<string, Entry>, byUser: map<int, set<string>>, user: int, key: string, e: Entry)
    requires IndexMatches(entries, byUser)
    requires forall v :: v in byUser && key in byUser[v] ==> v == user
    ensures var mine := (if user in byUser then byUser[user] else {}) + {key};
            IndexMatches(entries[key := e], byUser[user := mine])
  {
    var mine := (if user in byUser then byUser[user] else {}) + {key};
    var after := byUser[user := mine];
    forall k | k in entries[key := e] ensures Indexed(after, k) {
      if k == key {
        assert user in after && k in after[user];
      } else {
        var u :| u in byUser && k in byUser[u];
        assert u in after && k in after[u];
      }
    }
  }

  lemma IndexDropsUser(entries: map<string, Entry>, byUser: map<int, set<string>>, user: int)
    requires IndexMatches(entries, byUser) && user in byUser
    ensures IndexMatches(entries - byUser[user], byUser - {user})
  {
    forall k | k in entries - byUser[user] ensures Indexed(byUser - {user}, k) {
      var u :| u in byUser && k in byUser[u];
      assert u in byUser - {user};
    }
  }

  class Cache {
    var entries: map<string, Entry>
    var byUser: map<int, set<string>>
    const max: int
    const ttl: int

    ghost predicate Valid()
      reads this
    {
      0 < max && 0 < ttl && |entries| <= max && IndexMatches(entries, byUser)
    }

    constructor (max: int, ttl: int)
      ensures Valid() && entries == map[] && byUser == map[]
      ensures this.max == (if max <= 0 then 10000 else max)
      ensures this.ttl == (if ttl <= 0 then 300_000_000_000 else ttl)
    {
      this.max := if max <= 0 then 10000 else max;
      this.ttl := if ttl <= 0 then 300_000_000_000 else ttl;
      entries, byUser := map[], map[];
    }

    /** Removes one key from the entries and from every user's set. */
    method Delete(key: string)
      requires Valid()
      modifies this`entries, this`byUser
      ensures Valid() && entries == old(entries) - {key} && byUser == Unindex(old(byUser), key)
    {
      UnindexMatches(entries, byUser, key);
      SizeAfterDelete(entries, key);
      entries := entries - {key};
      byUser := RemoveFromIndex(byUser, key);
    }

    /** A fresh decision, if there is one; a stale entry is dropped on the way. */
    method Get(key: string, now: int) returns (value: bool, ok: bool)
      requires Valid()
      modifies this`entries, this`byUser
      ensures Valid() && Within(entries, old(entries))
      ensures ok <==> key in old(entries) && now <= old(entries)[key].expires
      ensures ok ==> value == old(entries)[key].value && entries == old(entries) && byUser == old(byUser)
      ensures !ok ==> entries == old(entries) - {key} && !value
      ensures Shrunk(byUser, old(byUser))
    {
      if key !in entries {
        return false, false;
      }
      var e := entries[key];
      if now > e.expires {
        Delete(key);
        return false, false;
      }
      value, ok := e.value, true;
    }

    method EvictExpired(now: int)
      requires Valid()
      modifies this`entries, this`byUser
      ensures Valid() && Shrunk(byUser, old(byUser))
      ensures entries == Swept(old(entries), {}, now)
    {
      var todo := entries.Keys;
      while todo != {}
        invariant Valid() && Shrunk(byUser, old(byUser))
        invariant todo <= entries.Keys && entries == Swept(old(entries), todo, now)
        decreases |todo|
      {
        var k := AnyOf(todo);
        SweptStep(old(entries), todo, k, now);
        todo := todo - {k};
        if now > entries[k].expires {
          Delete(k);
        }
      }
    }

    /** Drops arbitrary entries, no more than needed to make room for one. */
    method EvictOverflow()
      requires Valid()
      modifies this`entries, this`byUser
      ensures Valid() && Within(entries, old(entries)) && Shrunk(byUser, old(byUser))
      ensures |old(entries)| < max ==> entries == old(entries)
      ensures |old(entries)| >= max ==> |entries| == max - 1
    {
      while |entries| >= max
        invariant Valid() && Within(entries, old(entries)) && Shrunk(byUser, old(byUser))
        invariant |old(entries)| < max ==> entries == old(entries)
        invariant |old(entries)| >= max ==> |entries| >= max - 1
        decreases |entries|
      {
        assert entries.Keys != {} by { assert |entries.Keys| == |entries|; }
        var k := AnyOf(entries.Keys);
        SizeAfterDelete(entries, k);
        Delete(k);
      }
    }

    /** Drops what is expired, then arbitrary entries until one more fits. */
    method Evict(now: int)
      requires Valid()
      modifies this`entries, this`byUser
      ensures Valid() && |entries| < max && Within(entries, old(entries)) && Shrunk(byUser, old(byUser))
      ensures forall k :: k in entries ==> now <= entries[k].expires
      ensures |entries| < max - 1 ==> forall k :: k in old(entries) && now <= old(entries)[k].expires ==> k in entries
    {
      EvictExpired(now);
      EvictOverflow();
    }

    /** Stores a decision for the key's owner; room is made only when the key is new and the cache full. */
    method Set(user: int, key: string, value: bool, now: int)
      requires Valid()
      requires forall v :: v in byUser && key in byUser[v] ==> v == user
      modifies this`entries, this`byUser
      ensures Valid()
      ensures key in entries && entries[key] == Entry(value, now + ttl)
      ensures Within(entries - {key}, old(entries))
      ensures key in old(entries) || |old(entries)| < max ==> entries == old(entries)[key := Entry(value, now + ttl)]
      ensures user in byUser && key in byUser[user]
      ensures Extended(byUser, old(byUser), user, key)
    {
      if key !in entries && |entries| >= max {
        Evict(now);
      }
      var e := Entry(value, now + ttl);
      IndexAdds(entries, byUser, user, key, e);
      SizeAfterSet(entries, key, e);
      entries := entries[key := e];
      var mine := if user in byUser then byUser[user] else {};
      byUser := byUser[user := mine + {key}];
    }

    /** Drops all and only the decisions of one user. */
    method InvalidateUser(user: int)
      requires Valid()
      modifies this`entries, this`byUser
      ensures Valid() && byUser == old(byUser) - {user}
      ensures entries == old(entries) - (if user in old(byUser) then old(byUser)[user] else {})
    {
      if user in byUser {
        IndexDropsUser(entries, byUser, user);
        KeysFit((entries - byUser[user]).Keys, entries.Keys);
        entries := DeleteAll(entries, byUser[user]);
      } else {
        assert entries - {} == entries && byUser - {user} == byUser;
      }
      byUser := byUser - {user};
    }

    method InvalidateAll()
      requires 0 < max && 0 < ttl
      modifies this`entries, this`byUser
      ensures Valid() && entries == map[] && byUser == map[]
    {
      entries, byUser := map[], map[];
    }
  }
}
