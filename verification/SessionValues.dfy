/**
 The session of session/session.go: a map of typed values, shared by the session
 middleware and everything behind it.  Accessors tolerate a nil session.
 */
module SessionValues {
  import opened Wrappers
  import opened Bytes

  /** The framework's own keys, whose Go type no application key can have, and application keys: strings and ints. */
  datatype Key = CsrfTokenKey | LastActivityKey | NonceKey | RegionKey | AppKey(name: string) | IntKey(n: int)

  datatype Value = Bytes(b: bytes) | Int64(i: int) | Text(s: string) | Other(id: int)

  type Values = map<Key, Value>

  /** The token a read yields; empty stands for nil. */
  function Token(values: Values): bytes {
    if CsrfTokenKey in values && values[CsrfTokenKey].Bytes? then values[CsrfTokenKey].b else []
  }

  /** A read clears a token of the wrong type. */
  function TokenRead(values: Values): Values {
    if CsrfTokenKey in values && !values[CsrfTokenKey].Bytes? then values - {CsrfTokenKey} else values
  }

  /** The second since the epoch that a read yields; None stands for the zero time. */
  function LastActivity(values: Values): Option<int> {
    if LastActivityKey in values && values[LastActivityKey].Int64? && values[LastActivityKey].i != 0
    then Some(values[LastActivityKey].i) else None
  }

  function LastActivityRead(values: Values): Values {
    if LastActivity(values).None? then values - {LastActivityKey} else values
  }

  const NANOS: int := 1_000_000_000

  class Session {
    var values: Values

    constructor (values: Values)
      ensures this.values == values
    {
      this.values := values;
    }
  }

  method ReadToken(session: Session?) returns (token: bytes)
    modifies session
    ensures session == null ==> token == []
    ensures session != null ==> token == Token(old(session.values)) && session.values == TokenRead(old(session.values))
    ensures session != null && CsrfTokenKey in old(session.values) && old(session.values)[CsrfTokenKey].Bytes? ==>
              token == old(session.values)[CsrfTokenKey].b && session.values == old(session.values)
    ensures session != null && !(CsrfTokenKey in old(session.values) && old(session.values)[CsrfTokenKey].Bytes?) ==>
              token == [] && session.values == old(session.values) - {CsrfTokenKey}
  {
    if session == null || CsrfTokenKey !in session.values {
      return [];
    }
    var v := session.values[CsrfTokenKey];
    if !v.Bytes? {
      session.values := session.values - {CsrfTokenKey};
      return [];
    }
    return v.b;
  }

  method StoreToken(session: Session?, token: bytes)
    modifies session
    ensures session != null ==>
              session.values == if token == [] then old(session.values)
                  else old(session.values)[CsrfTokenKey := Bytes(token)]
  {
    if session == null || |token| == 0 {
      return;
    }
    session.values := session.values[CsrfTokenKey := Bytes(token)];
  }

  /** `now` is in nanoseconds since the epoch; Unix() drops the fraction of a second. */
  method StoreLastActivity(session: Session?, now: int)
    modifies session
    ensures session != null ==> session.values == old(session.values)[LastActivityKey := Int64(now / 1_000_000_000)]
  {
    if session == null {
      return;
    }
    session.values := session.values[LastActivityKey := Int64(now / NANOS)];
  }

  method ReadLastActivity(session: Session?) returns (at: Option<int>)
    modifies session
    ensures session == null ==> at == None
    ensures session != null ==>
              at == LastActivity(old(session.values)) && session.values == LastActivityRead(old(session.values))
    ensures forall i :: at == Some(i)
              <==> session != null && i != 0 && LastActivityKey in old(session.values)
                   && old(session.values)[LastActivityKey] == Int64(i)
    ensures session != null ==>
              session.values == if at.Some? then old(session.values) else old(session.values) - {LastActivityKey}
  {
    if session == null || LastActivityKey !in session.values {
      return None;
    }
    var v := session.values[LastActivityKey];
    if !v.Int64? || v.i == 0 {
      session.values := session.values - {LastActivityKey};
      return None;
    }
    return Some(v.i);
  }
}
