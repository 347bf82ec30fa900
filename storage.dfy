/**
 * `localStorage`, reduced to what the stores use: `setItem` and `getItem` on string keys.
 * Values are held already decoded from their JSON text, one store per value type.
 */
module Storage {
  class LocalStorage<V> {
    var items: map<string, V>

    constructor (items: map<string, V>)
      ensures this.items == items
    {
      this.items := items;
    }

    /** `localStorage.setItem(key, value)`: writes one slot and leaves every other slot alone. */
    method SetItem(key: string, value: V)
      modifies this
      ensures items == old(items)[key := value]
    {
      items := items[key := value];
    }
  }

  /** `localStorage.getItem(key) ?? fallback`, on the decoded contents. */
  function GetOr<V>(items: map<string, V>, key: string, fallback: V): (r: V)
    ensures key in items ==> r == items[key]
    ensures key !in items ==> r == fallback
  {
    if key in items then items[key] else fallback
  }
}
