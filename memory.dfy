/**
 * The memo list: entries of free text attached to a day, created with a fresh key and
 * stored whole in the "memories" slot.
 */
module Memories {
  import opened Date
  import opened Storage

  datatype Memory = Memory(key: string, content: string, date: Day)

  /** `createMemory`: the list with one new entry, carrying the given content, date and key, at its end. */
  function CreateMemory(memories: seq<Memory>, content: string, date: Day, key: string): (r: seq<Memory>)
    ensures |r| == |memories| + 1
    ensures r[..|memories|] == memories
    ensures r[|memories|] == Memory(key, content, date)
  {
    memories + [Memory(key, content, date)]
  }

  predicate KeysUnique(memories: seq<Memory>) {
    forall i, j :: 0 <= i < j < |memories| ==> memories[i].key != memories[j].key
  }

  /** `key` is carried by no entry, as a fresh random UUID is. */
  predicate Fresh(memories: seq<Memory>, key: string) {
    forall i :: 0 <= i < |memories| ==> memories[i].key != key
  }

  /** Creating with a fresh key keeps the keys unique. */
  lemma CreateKeepsKeysUnique(memories: seq<Memory>, content: string, date: Day, key: string)
    requires KeysUnique(memories) && Fresh(memories, key)
    ensures KeysUnique(CreateMemory(memories, content, date, key))
  {
  }

  /** Two successive creations with keys fresh at their time never share a key. */
  lemma CreateTwiceDistinct(memories: seq<Memory>, c1: string, d1: Day, k1: string, c2: string, d2: Day, k2: string)
    requires KeysUnique(memories) && Fresh(memories, k1)
    requires Fresh(CreateMemory(memories, c1, d1, k1), k2)
    ensures var r := CreateMemory(CreateMemory(memories, c1, d1, k1), c2, d2, k2);
      KeysUnique(r) && |r| == |memories| + 2 && r[|memories|].key != r[|memories| + 1].key
  {
    CreateKeepsKeysUnique(memories, c1, d1, k1);
    CreateKeepsKeysUnique(CreateMemory(memories, c1, d1, k1), c2, d2, k2);
  }

  /** `saveMemories`: writes the whole list to the "memories" slot and nothing else. */
  method SaveMemories(store: LocalStorage<seq<Memory>>, memories: seq<Memory>)
    modifies store
    ensures store.items == old(store.items)["memories" := memories]
  {
    store.SetItem("memories", memories);
  }

  /** `loadMemories`: the "memories" slot, or an empty list when it is missing. */
  function LoadMemories(items: map<string, seq<Memory>>): (r: seq<Memory>)
    ensures "memories" !in items ==> r == []
  {
    GetOr(items, "memories", [])
  }

  /** Loading after a save returns the saved list. */
  lemma LoadMemoriesAfterSave(items: map<string, seq<Memory>>, memories: seq<Memory>)
    ensures LoadMemories(items["memories" := memories]) == memories
  {
  }
}
