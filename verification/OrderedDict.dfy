/** The ordered dictionary: one list in insertion order and one hash table over the same entries. */
module OrderedDictionary {
  import opened Base
  import opened HashTable
  import opened Json

  /** The handler that looks for a key. */
  function HasKey(key: string): Entry -> bool {
    (e: Entry) => e.key == key
  }

  class OrderedDict {
    var lst: seq<Entry>
    var ht: Hash<Entry>
    /** hash_fast_str, left uninterpreted. */
    const fast: string -> u32

    /** List and table hold the same entries, and every entry sits under the hash of its key. */
    ghost predicate Valid()
      reads this, ht
    {
      && ht.Valid() && Values(ht.log) == lst
      && forall i :: 0 <= i < |ht.log| ==> ht.log[i].0 == fast(ht.log[i].1.key)
    }

    constructor (bsize: nat, fast: string -> u32)
      requires bsize > 0 && PowerOfTwo(bsize)
      ensures Valid() && lst == [] && fresh(ht) && this.fast == fast
    {
      this.fast := fast;
      lst := [];
      ht := new Hash<Entry>(bsize);
    }

    /** odict_entry_add: duplicates of a key are kept. */
    method Add(key: string, v: Value)
      requires Valid()
      modifies this, ht
      ensures Valid() && ht == old(ht) && lst == old(lst) + [Entry(key, v)]
    {
      lst := lst + [Entry(key, v)];
      ht.Append(fast(key), Entry(key, v));
    }

    /** odict_lookup goes through the hash table, and finds the oldest entry of the list with that key. */
    method Lookup(key: string) returns (e: Option<Entry>)
      requires Valid()
      ensures e == First(lst, HasKey(key))
    {
      e := ht.Lookup(fast(key), HasKey(key));
    }

    /** odict_entry_del: the entry a lookup finds leaves the list and the table together. */
    method Del(key: string)
      requires Valid()
      modifies this, ht
      ensures Valid() && ht == old(ht) && lst == DropFirst(old(lst), HasKey(key))
    {
      DropFirstValues(ht.log, HasKey(key));
      DropFirstKeys(ht.log, HasKey(key));
      ghost var log := ht.log;
      ht.UnlinkFirst(fast(key), HasKey(key));
      lst := DropFirst(lst, HasKey(key));
      forall i | 0 <= i < |ht.log| ensures ht.log[i].0 == fast(ht.log[i].1.key) {
        assert ht.log[i] in log;
      }
    }
  }

  /** The entries of one key, oldest first. */
  function Under(lst: seq<Entry>, key: string): seq<Entry> {
    if lst == [] then []
    else Under(lst[..|lst| - 1], key) + if lst[|lst| - 1].key == key then [lst[|lst| - 1]] else []
  }

  lemma AddEnqueues(lst: seq<Entry>, e: Entry, key: string)
    ensures Under(lst + [e], key) == Under(lst, key) + if e.key == key then [e] else []
  {
    assert (lst + [e])[..|lst|] == lst;
  }

  lemma {:induction false} HeadFound(lst: seq<Entry>, key: string)
    ensures First(lst, HasKey(key)) == if Under(lst, key) == [] then None else Some(Under(lst, key)[0])
  {
    hide First;
    if lst == [] {
      NoneFound(key);
    } else {
      var rest, y := lst[..|lst| - 1], lst[|lst| - 1];
      HeadFound(rest, key);
      assert lst == rest + [y];
      FirstAppend(rest, y, HasKey(key));
    }
  }

  lemma NoneFound(key: string)
    ensures First([], HasKey(key)) == None && DropFirst([], HasKey(key)) == []
  {
  }

  /**
   * The entries of every key form a queue: by HeadFound a lookup finds its head, by AddEnqueues adding goes to
   * its end, and deleting takes its head and nothing from any other queue.
   */
  lemma {:induction false} DelDequeues(lst: seq<Entry>, key: string, any: string)
    ensures Under(DropFirst(lst, HasKey(key)), any)
            == if any == key && Under(lst, key) != [] then Under(lst, key)[1..] else Under(lst, any)
  {
    hide First, DropFirst;
    if lst == [] {
      NoneFound(key);
    } else {
      var rest, y := lst[..|lst| - 1], lst[|lst| - 1];
      DelDequeues(rest, key, any);
      HeadFound(rest, key);
      assert lst == rest + [y];
      DropFirstNext(rest, y, HasKey(key));
      AddEnqueues(DropFirst(rest, HasKey(key)), y, any);
    }
  }

  /** So deleting uncovers the next entry with the same key, and leaves lookups of other keys alone. */
  lemma DelUncovers(lst: seq<Entry>, key: string, other: string)
    ensures var after := DropFirst(lst, HasKey(key));
            && (other != key ==> First(after, HasKey(other)) == First(lst, HasKey(other)))
            && First(after, HasKey(key)) == if |Under(lst, key)| <= 1 then None else Some(Under(lst, key)[1])
  {
    var after := DropFirst(lst, HasKey(key));
    DelDequeues(lst, key, key);
    DelDequeues(lst, key, other);
    HeadFound(lst, other);
    HeadFound(after, key);
    HeadFound(after, other);
  }
}
