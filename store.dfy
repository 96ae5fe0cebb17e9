/**
 * The session endpoints of jppy/tokenizer.py over the in-memory session
 * backend: `create` stores a new session, `tokenize` merges morphemes into
 * it, `finalize` hands back the sorted tokens and deletes it, and `destroy`
 * deletes it. The backend is a map from session id to session data that the
 * endpoints update in place.
 */
module Store {
  import opened Normalizer
  import opened Merge
  import opened Finalize

  /** A session id. The source draws a random UUID; here the caller supplies it. */
  datatype SessionId = SessionId(uuid: nat)

  /**
   * Why an endpoint fails: the backend already holds the id it is asked to
   * create, the request names a session the backend does not hold (the
   * session verifier answers 403, the backend's delete raises), or the
   * response object cannot be built from the endpoint's result.
   */
  datatype Error = SessionExists | SessionNotFound | InvalidResponse

  datatype Result<T> = Ok(value: T) | Err(error: Error)

  class SessionStore {
    /** The in-memory backend: the data of every live session. */
    var sessions: map<SessionId, SessionData>

    /** Every live session satisfies the accumulator's invariant. */
    ghost predicate Valid()
      reads this
    {
      forall id :: id in sessions ==> Merge.Valid(sessions[id])
    }

    constructor()
      ensures sessions == map[]
      ensures Valid()
    {
      sessions := map[];
    }

    /**
     * `create`: stores a new session under `id` whose exclusion list holds
     * the identity keys of the given tokens, each once, and no items.
     */
    method Create(id: SessionId, exclude: seq<Token>) returns (r: Result<bool>)
      requires Valid()
      modifies this
      ensures Valid()
      ensures id in old(sessions) ==> r == Err(SessionExists) && sessions == old(sessions)
      ensures id !in old(sessions) ==>
                r == Ok(true) && sessions == old(sessions)[id := NewSession(exclude)]
    {
      if id in sessions {
        return Err(SessionExists);
      }
      sessions := sessions[id := NewSession(exclude)];
      return Ok(true);
    }

    /**
     * `tokenize`: merges the segmenter's morphemes into the session, one at a
     * time and in order, skipping those whose key is excluded.
     */
    method Tokenize(id: SessionId, ms: seq<Morpheme>) returns (r: Result<bool>)
      requires Valid()
      modifies this
      ensures Valid()
      ensures id !in old(sessions) ==> r == Err(SessionNotFound) && sessions == old(sessions)
      ensures id in old(sessions) ==>
                r == Ok(true) && sessions == old(sessions)[id := MergeAll(old(sessions)[id], ms)]
    {
      if id !in sessions {
        return Err(SessionNotFound);
      }
      var data := sessions[id];
      var notAllowed := set k | k in data.exclude;
      var items, order := data.items, data.order;
      var i := 0;
      while i < |ms|
        invariant 0 <= i <= |ms|
        invariant SessionData(data.exclude, items, order) == MergeAll(data, ms[..i])
      {
        var t := MorphemeToToken(ms[i]);
        var key := TokenId(t);
        if key !in notAllowed {
          if key in items {
            var v := items[key];
            items := items[key := v.(reading := v.reading + [t.reading[0]], count := v.count + 1)];
          } else {
            items := items[key := t];
            order := order + [key];
          }
        }
        assert ms[..i + 1][..i] == ms[..i];
        i := i + 1;
      }
      assert ms[..|ms|] == ms;
      MergeAllValid(data, ms);
      sessions := sessions[id := SessionData(data.exclude, items, order)];
      return Ok(true);
    }

    /**
     * `finalize` with the result it evidently means to return: the session's
     * tokens sorted by count; the session is deleted.
     */
    method Finalize(id: SessionId) returns (r: Result<seq<Token>>)
      requires Valid()
      modifies this
      ensures Valid()
      ensures id !in old(sessions) ==> r == Err(SessionNotFound) && sessions == old(sessions)
      ensures id in old(sessions) ==>
                r == Ok(FinalizeResult(old(sessions)[id])) && sessions == old(sessions) - {id}
    {
      if id !in sessions {
        return Err(SessionNotFound);
      }
      var result := FinalizeResult(sessions[id]);
      sessions := sessions - {id};
      return Ok(result);
    }

    /**
     * `finalize` as written: the session is deleted first, and then the
     * response cannot be built from the `None` that `list.sort` returns, so
     * the client gets an error and the tokens are gone with the session.
     */
    method FinalizeEndpointAsWritten(id: SessionId) returns (r: Result<seq<Token>>)
      requires Valid()
      modifies this
      ensures Valid()
      ensures id !in old(sessions) ==> r == Err(SessionNotFound) && sessions == old(sessions)
      ensures id in old(sessions) ==> r == Err(InvalidResponse) && sessions == old(sessions) - {id}
    {
      if id !in sessions {
        return Err(SessionNotFound);
      }
      var response := FinalizeAsWritten(sessions[id]);
      sessions := sessions - {id};
      match response {
        case Output(result) => return Ok(result);
        case ValidationFailure => return Err(InvalidResponse);
      }
    }

    /** `destroy`: deletes the session without returning its tokens. */
    method Destroy(id: SessionId) returns (r: Result<bool>)
      requires Valid()
      modifies this
      ensures Valid()
      ensures id !in old(sessions) ==> r == Err(SessionNotFound) && sessions == old(sessions)
      ensures id in old(sessions) ==> r == Ok(true) && sessions == old(sessions) - {id}
    {
      if id !in sessions {
        return Err(SessionNotFound);
      }
      sessions := sessions - {id};
      return Ok(true);
    }
  }
}
