/**
 * The storage API that router/router.go and kvserver.go call: an older
 * iteration of the store whose Get answers (value, found), whose Delete answers
 * whether the key existed, and whose Set's result is ignored by its callers.
 * Only the key-to-value view the handlers observe is kept.
 */
module LegacyStore {

  class Store {
    var data: map<string, string>

    constructor (data: map<string, string>)
      ensures this.data == data
    {
      this.data := data;
    }

    /** Get: the stored value and true, or the empty string and false; nothing changes. */
    method Get(key: string) returns (val: string, found: bool)
      ensures found <==> key in data
      ensures found ==> val == data[key]
      ensures !found ==> val == ""
    {
      if key in data {
        return data[key], true;
      }
      return "", false;
    }

    /** Set: `key` now maps to `value`; every other key is unchanged. */
    method Set(key: string, value: string)
      modifies this
      ensures data == old(data)[key := value]
    {
      data := data[key := value];
    }

    /** Delete: removes `key` and tells whether it was there. */
    method Delete(key: string) returns (existed: bool)
      modifies this
      ensures existed == (key in old(data))
      ensures data == old(data) - {key}
    {
      existed := key in data;
      data := data - {key};
    }
  }
}
