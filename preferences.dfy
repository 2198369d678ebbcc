/** The application's private key-value preference file, reduced to what the
    quiz uses of it: integer entries under string keys, read with a default. */
module Preferences {

  /** The value stored under `key`, or `default` when nothing was ever stored. */
  function Lookup(entries: map<string, int>, key: string, default: int): int {
    if key in entries then entries[key] else default
  }

  /** The persisted preference file; every activity shares the same one. */
  class SharedPreferences {
    var entries: map<string, int>

    constructor (saved: map<string, int>)
      ensures entries == saved
    {
      entries := saved;
    }

    function GetInt(key: string, default: int): int
      reads this
    {
      Lookup(entries, key, default)
    }

    /** `edit().putInt(key, value).apply()`. */
    method PutInt(key: string, value: int)
      modifies this
      ensures entries == old(entries)[key := value]
      ensures GetInt(key, 0) == value
    {
      entries := entries[key := value];
    }
  }
}
