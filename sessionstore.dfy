/** The browser's localStorage as ui.js uses it: two string keys, written at login and
    sign-up, cleared at logout. */
module SessionStore {
  import opened Wrappers

  type Storage = map<string, string>

  const TokenKey := "token"
  const UsernameKey := "username"

  /** `localStorage.getItem(key)`: the stored string, or null. */
  function GetItem(storage: Storage, key: string): (r: Option<string>)
    ensures r.Some? <==> key in storage
    ensures r.Some? ==> r.value == storage[key]
  {
    if key in storage then Some(storage[key]) else None
  }

  /** `setItem('token', token)` then `setItem('username', username)`. */
  function Saved(storage: Storage, token: string, username: string): (r: Storage)
    ensures r.Keys == storage.Keys + {TokenKey, UsernameKey}
    ensures forall key :: key in storage && key != TokenKey && key != UsernameKey ==> r[key] == storage[key]
  {
    storage[TokenKey := token][UsernameKey := username]
  }

  /** What the next page load reads back is what was saved. */
  lemma SavedReadsBack(storage: Storage, token: string, username: string)
    ensures GetItem(Saved(storage, token, username), TokenKey) == Some(token)
    ensures GetItem(Saved(storage, token, username), UsernameKey) == Some(username)
  {
  }

  /** After `localStorage.clear()` neither key is there, so the next page load starts
      without a session. */
  lemma ClearedReadsNothing()
    ensures GetItem(map[], TokenKey) == None && GetItem(map[], UsernameKey) == None
  {
  }
}
