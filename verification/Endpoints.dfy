/** One client per endpoint of a batch. */
module Endpoints {
  import opened Words

  /** The primary client is shared; any other URL gets a client of its own. */
  datatype Client = Primary | Own(url: string)

  function ClientUrl(c: Client, primary: string): string {
    if c.Primary? then primary else c.url
  }

  /** Request targets in the order in which they are first named. */
  function FirstUses<K(==)>(urls: seq<string>, key: string -> K): seq<K> {
    if urls == [] then []
    else
      var earlier, k := FirstUses(urls[..|urls| - 1], key), key(urls[|urls| - 1]);
      if k in earlier then earlier else earlier + [k]
  }

  ghost predicate Named<K>(urls: seq<string>, key: string -> K, k: K) {
    exists i | 0 <= i < |urls| :: key(urls[i]) == k
  }

  /** Each request target is named once, and none is left out or invented. */
  lemma {:induction false} FirstUsesAreDistinct<K>(urls: seq<string>, key: string -> K)
    ensures forall i, j | 0 <= i < j < |FirstUses(urls, key)| :: FirstUses(urls, key)[i] != FirstUses(urls, key)[j]
    ensures forall k :: k in FirstUses(urls, key) <==> Named(urls, key, k)
  {
    if urls != [] {
      var front, last := urls[..|urls| - 1], urls[|urls| - 1];
      FirstUsesAreDistinct(front, key);
      var earlier, f := FirstUses(front, key), FirstUses(urls, key);
      assert f == if key(last) in earlier then earlier else earlier + [key(last)];
      forall k ensures k in f <==> Named(urls, key, k) {
        NamedSnoc(front, last, key, k);
        assert urls == front + [last];
      }
    }
  }

  /** They come in the order of their first uses: every use of a later one follows a use of an earlier one. */
  lemma {:induction false} FirstUsesAreInOrder<K>(urls: seq<string>, key: string -> K, i: nat, j: nat, q: nat)
    requires i < j < |FirstUses(urls, key)| && q < |urls| && key(urls[q]) == FirstUses(urls, key)[j]
    ensures exists p | 0 <= p < q :: key(urls[p]) == FirstUses(urls, key)[i]
    decreases |urls|
  {
    var front, last := urls[..|urls| - 1], urls[|urls| - 1];
    var earlier, f := FirstUses(front, key), FirstUses(urls, key);
    assert f == if key(last) in earlier then earlier else earlier + [key(last)];
    FirstUsesAreDistinct(front, key);
    assert f[i] in earlier;
    if q < |front| {
      assert Named(front, key, f[j]) && f[j] in earlier;
      assert |f| > |earlier| ==> f[|earlier|] !in earlier;
      FirstUsesAreInOrder(front, key, i, j, q);
      var p :| 0 <= p < q && key(front[p]) == earlier[i];
      assert key(urls[p]) == f[i];
    } else {
      assert Named(front, key, f[i]);
      var p :| 0 <= p < |front| && key(front[p]) == f[i];
      assert key(urls[p]) == f[i];
    }
  }

  lemma NamedSnoc<K>(front: seq<string>, last: string, key: string -> K, k: K)
    ensures Named(front + [last], key, k) <==> Named(front, key, k) || k == key(last)
  {
    var urls := front + [last];
    assert urls[|front|] == last;
    if i :| 0 <= i < |front| && key(front[i]) == k {
      assert key(urls[i]) == k;
    }
  }

  ghost function Keys<K>(clients: seq<Client>, primary: string, key: string -> K): seq<K> {
    seq(|clients|, i requires 0 <= i < |clients| => key(ClientUrl(clients[i], primary)))
  }

  /** A URL that needs a client of its own, which cannot be made. */
  ghost predicate CannotOpen<K>(urls: seq<string>, primary: string, key: string -> K, opens: string -> bool, k: nat)
    requires k < |urls|
  {
    key(urls[k]) !in FirstUses(urls[..k], key) && key(urls[k]) != key(primary) && !opens(urls[k])
  }

  /** One client per request target, in first-named order, sharing the primary's where it is named. */
  method SharingPrimary<K(==)>(primary: string, urls: seq<string>, key: string -> K, opens: string -> bool)
    returns (clients: Option<seq<Client>>)
    ensures clients.None? <==> exists k | 0 <= k < |urls| :: CannotOpen(urls, primary, key, opens, k)
    ensures clients.Some? ==> Keys(clients.value, primary, key) == FirstUses(urls, key)
    ensures clients.Some? ==> forall c | c in clients.value ::
                c.Own? ==> c.url in urls && key(c.url) != key(primary)
  {
    var made: seq<Client> := [];
    var i := 0;
    while i < |urls|
      invariant 0 <= i <= |urls|
      invariant Keys(made, primary, key) == FirstUses(urls[..i], key)
      invariant forall c | c in made :: c.Own? ==> c.url in urls && key(c.url) != key(primary)
      invariant forall k | 0 <= k < i :: !CannotOpen(urls, primary, key, opens, k)
    {
      var url := urls[i];
      assert urls[..i + 1][..i] == urls[..i] && urls[..i + 1][i] == url;
      var known := exists c | c in made :: key(ClientUrl(c, primary)) == key(url);
      KnownIff(made, primary, key, key(url));
      ghost var before := made;
      if !known {
        if key(primary) == key(url) {
          made := made + [Primary];
        } else if opens(url) {
          made := made + [Own(url)];
        } else {
          assert CannotOpen(urls, primary, key, opens, i);
          return None;
        }
      }
      KeysGrow(before, made, primary, key);
      i := i + 1;
    }
    assert urls[..i] == urls;
    clients := Some(made);
  }

  lemma KeysGrow<K>(clients: seq<Client>, more: seq<Client>, primary: string, key: string -> K)
    requires more == clients || (|more| == |clients| + 1 && more[..|clients|] == clients)
    ensures Keys(more, primary, key) ==
            Keys(clients, primary, key) + if more == clients then [] else [key(ClientUrl(more[|clients|], primary))]
  {
    if more != clients {
      assert forall i | 0 <= i < |clients| :: more[i] == more[..|clients|][i];
    }
  }

  lemma KnownIff<K>(clients: seq<Client>, primary: string, key: string -> K, k: K)
    ensures k in Keys(clients, primary, key) <==> exists c | c in clients :: key(ClientUrl(c, primary)) == k
  {
    var keys := Keys(clients, primary, key);
    if k in keys {
      var i :| 0 <= i < |keys| && keys[i] == k;
      assert clients[i] in clients;
    }
    if c :| c in clients && key(ClientUrl(c, primary)) == k {
      var i :| 0 <= i < |clients| && clients[i] == c;
      assert keys[i] == k;
    }
  }
}
