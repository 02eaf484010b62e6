/** The operating system's keyring as the credential code sees it: secrets
    under a (service, user) pair, and a keyring that may be unreachable
    altogether, in which case every call fails with the same message. */
module Keyring {
  import opened Base

  datatype Keyring = Keyring(entries: map<(string, string), string>, outage: Option<string>)

  /** The keyring library's message for a missing secret. */
  const ErrNotFound := "secret not found in keyring"

  function Get(ring: Keyring, service: string, user: string): (r: Result<string>)
    ensures ring.outage.Some? ==> r == Err(ring.outage.value)
    ensures ring.outage.None? ==> (r.Ok? <==> (service, user) in ring.entries)
    ensures r.Ok? ==> r.value == ring.entries[(service, user)]
    ensures ring.outage.None? && r.Err? ==> r.msg == ErrNotFound
  {
    if ring.outage.Some? then Err(ring.outage.value)
    else if (service, user) in ring.entries then Ok(ring.entries[(service, user)])
    else Err(ErrNotFound)
  }

  /** Set stores or overwrites one secret. */
  function Set(ring: Keyring, service: string, user: string, secret: string): (r: Result<Keyring>)
    ensures ring.outage.Some? ==> r == Err(ring.outage.value)
    ensures ring.outage.None? ==> r.Ok? && r.value.outage.None?
    ensures r.Ok? ==> Get(r.value, service, user) == Ok(secret)
    ensures r.Ok? ==> forall s, u :: (s, u) != (service, user) ==> Get(r.value, s, u) == Get(ring, s, u)
  {
    if ring.outage.Some? then Err(ring.outage.value)
    else Ok(ring.(entries := ring.entries[(service, user) := secret]))
  }

  /** Delete removes one secret; deleting a missing one is an error. */
  function Delete(ring: Keyring, service: string, user: string): (r: Result<Keyring>)
    ensures ring.outage.Some? ==> r == Err(ring.outage.value)
    ensures ring.outage.None? ==> (r.Ok? <==> (service, user) in ring.entries)
    ensures ring.outage.None? && r.Err? ==> r.msg == ErrNotFound
    ensures r.Ok? ==> Get(r.value, service, user) == Err(ErrNotFound)
    ensures r.Ok? ==> forall s, u :: (s, u) != (service, user) ==> Get(r.value, s, u) == Get(ring, s, u)
  {
    if ring.outage.Some? then Err(ring.outage.value)
    else if (service, user) !in ring.entries then Err(ErrNotFound)
    else Ok(ring.(entries := ring.entries - {(service, user)}))
  }
}
