/**
 * One section of the plugin's YAML configuration (`firewall.rules`, `ports.open`,
 * `ports-ip.rules`): its child keys in the order `getKeys(false)` lists them, each with
 * the entry stored under it. `config.set(section + "." + key + ...)` changes an existing
 * key in place and appends a new one; setting a key to null deletes it.
 */
module Config {
  import opened Wrappers

  datatype Item<E> = Item(key: string, entry: E)

  type Section<E> = seq<Item<E>>

  /** A section never holds the same key twice. */
  predicate KeysDistinct<E>(sec: Section<E>) {
    forall i, j :: 0 <= i < j < |sec| ==> sec[i].key != sec[j].key
  }

  predicate HasKey<E>(sec: Section<E>, key: string) {
    exists i :: 0 <= i < |sec| && sec[i].key == key
  }

  /** The entry stored under `key`, if any. */
  function Get<E>(sec: Section<E>, key: string): (r: Option<E>)
    ensures r.Some? <==> HasKey(sec, key)
  {
    if sec == [] then None
    else if sec[0].key == key then Some(sec[0].entry)
    else Get(sec[1..], key)
  }

  /** config.set: the entry under `key` is replaced where it stands, or the key is appended. */
  function Put<E>(sec: Section<E>, key: string, e: E): (r: Section<E>)
  {
    if sec == [] then [Item(key, e)]
    else if sec[0].key == key then [Item(key, e)] + sec[1..]
    else [sec[0]] + Put(sec[1..], key, e)
  }

  /** config.set(key, null): the key and its entry are deleted. */
  function DeleteKey<E>(sec: Section<E>, key: string): (r: Section<E>)
    ensures |r| <= |sec|
  {
    if sec == [] then []
    else if sec[0].key == key then sec[1..]
    else [sec[0]] + DeleteKey(sec[1..], key)
  }

  /** Putting a key that is not there yet appends it at the end. */
  lemma {:induction false} PutNewKeyAppends<E>(sec: Section<E>, key: string, e: E)
    requires !HasKey(sec, key)
    ensures Put(sec, key, e) == sec + [Item(key, e)]
  {
    if sec != [] {
      assert !HasKey(sec[1..], key) by {
        forall i | 0 <= i < |sec[1..]| ensures sec[1..][i].key != key {
          assert sec[1..][i] == sec[i + 1];
        }
      }
      PutNewKeyAppends(sec[1..], key, e);
    }
  }

  /** After a put the key holds the new entry, every other key keeps its own, and keys stay distinct. */
  lemma {:induction false} PutThenGet<E>(sec: Section<E>, key: string, e: E, other: string)
    requires KeysDistinct(sec)
    ensures Get(Put(sec, key, e), key) == Some(e)
    ensures other != key ==> Get(Put(sec, key, e), other) == Get(sec, other)
    ensures KeysDistinct(Put(sec, key, e))
  {
    if sec != [] {
      TailKeysDistinct(sec);
      if sec[0].key != key {
        PutThenGet(sec[1..], key, e, other);
        PutElements(sec[1..], key, e);
        var r := Put(sec, key, e);
        forall j | 0 < j < |r| ensures r[j].key != sec[0].key {
          assert r[j] in Put(sec[1..], key, e);
          if r[j] != Item(key, e) {
            var i :| 0 <= i < |sec[1..]| && sec[1..][i] == r[j];
            assert sec[i + 1] == r[j];
          }
        }
      } else {
        var r := Put(sec, key, e);
        forall i, j | 0 <= i < j < |r| ensures r[i].key != r[j].key {
          assert r[j] == sec[j];
          if i > 0 { assert r[i] == sec[i]; }
        }
      }
    }
  }

  lemma TailKeysDistinct<E>(sec: Section<E>)
    requires KeysDistinct(sec) && sec != []
    ensures KeysDistinct(sec[1..])
  {
    forall i, j | 0 <= i < j < |sec[1..]| ensures sec[1..][i].key != sec[1..][j].key {
      assert sec[1..][i] == sec[i + 1] && sec[1..][j] == sec[j + 1];
    }
  }

  /** Everything in the result of a put was in the section, or is the new item. */
  lemma {:induction false} PutElements<E>(sec: Section<E>, key: string, e: E)
    ensures forall x :: x in Put(sec, key, e) ==> x in sec || x == Item(key, e)
  {
    if sec != [] && sec[0].key != key {
      PutElements(sec[1..], key, e);
    }
  }

  /** After a delete the key is gone and every other key keeps its entry. */
  lemma {:induction false} DeleteThenGet<E>(sec: Section<E>, key: string, other: string)
    requires KeysDistinct(sec)
    ensures Get(DeleteKey(sec, key), key) == None
    ensures other != key ==> Get(DeleteKey(sec, key), other) == Get(sec, other)
    ensures KeysDistinct(DeleteKey(sec, key))
  {
    if sec != [] {
      assert KeysDistinct(sec[1..]) by {
        forall i, j | 0 <= i < j < |sec[1..]| ensures sec[1..][i].key != sec[1..][j].key {
          assert sec[1..][i] == sec[i + 1] && sec[1..][j] == sec[j + 1];
        }
      }
      if sec[0].key == key {
        assert !HasKey(sec[1..], key) by {
          forall i | 0 <= i < |sec[1..]| ensures sec[1..][i].key != key {
            assert sec[1..][i] == sec[i + 1];
          }
        }
      } else {
        DeleteThenGet(sec[1..], key, other);
        DeleteIsSubsequence(sec[1..], key);
        var r := DeleteKey(sec, key);
        forall j | 0 < j < |r| ensures r[j].key != sec[0].key {
          assert r[j] in DeleteKey(sec[1..], key);
          assert r[j] in sec[1..];
          var i :| 0 <= i < |sec[1..]| && sec[1..][i] == r[j];
          assert sec[i + 1] == r[j];
        }
      }
    }
  }

  /** Everything a delete leaves was in the section. */
  lemma {:induction false} DeleteIsSubsequence<E>(sec: Section<E>, key: string)
    ensures forall x :: x in DeleteKey(sec, key) ==> x in sec
  {
    if sec != [] && sec[0].key != key {
      DeleteIsSubsequence(sec[1..], key);
    }
  }

  /** Removing the item at one index keeps the keys distinct. */
  lemma DeleteAtKeepsDistinct<E>(sec: Section<E>, i: int)
    requires KeysDistinct(sec) && 0 <= i < |sec|
    ensures KeysDistinct(sec[..i] + sec[i + 1..])
  {
    var r := sec[..i] + sec[i + 1..];
    forall a, b | 0 <= a < b < |r| ensures r[a].key != r[b].key {
      var a' := if a < i then a else a + 1;
      var b' := if b < i then b else b + 1;
      assert r[a] == sec[a'] && r[b] == sec[b'];
    }
  }
}
