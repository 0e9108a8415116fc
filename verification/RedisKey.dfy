/** One Redis key with an owner and a time to live, and the commands the locks send to it. */
module RedisKey {
  import opened Common

  datatype Entry = Entry(owner: string, expiresAt: int)

  predicate Present(key: Option<Entry>, now: int) {
    key.Some? && now < key.value.expiresAt
  }

  /** GET */
  function Owner(key: Option<Entry>, now: int): Option<string> {
    if Present(key, now) then Some(key.value.owner) else None
  }

  /** SET key owner PX ttl NX */
  function SetNx(key: Option<Entry>, owner: string, ttl: int, now: int): Option<Entry> {
    if Present(key, now) then key else Some(Entry(owner, now + ttl))
  }

  /** PEXPIRE, whoever the owner is. */
  function PExpire(key: Option<Entry>, ttl: int, now: int): Option<Entry> {
    if Present(key, now) then Some(Entry(key.value.owner, now + ttl)) else None
  }

  /** The release script: delete only one's own key. */
  function CompareDelete(key: Option<Entry>, owner: string, now: int): Option<Entry> {
    if Owner(key, now) == Some(owner) then None else key
  }
}
