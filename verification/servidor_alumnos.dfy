/**
  The in-memory student server: every request to `/alumnos...` goes
  through `gestionarAlumnos`, which routes it to one of the store's
  operations.
*/
module ServidorAlumnos {
  import opened JavaNumbers
  import opened Http
  import opened AlumnoStore

  const NoRouteText: string := "Ruta no v\U{e1}lida"

  /** `gestionarAlumnos`: one exchange against the store. An escaping
      exception leaves the store as it was; otherwise the answer is one of
      the statuses the operations send. */
  function Handle(st: Store, req: Request): (o: Outcome<Store>)
    ensures o.response.Aborted? ==> o.store == st
    ensures o.response.Reply? ==> o.response.status in {200, 201, 204, 404, 405}
    ensures o.store != st ==> Mutated(Route(req.verb, req.path), o.response)
  {
    Apply(st, Route(req.verb, req.path), req.body, NoRouteText)
  }

  /** The store after a sequence of exchanges, handled one at a time. */
  function Run(st: Store, reqs: seq<Request>): Store
    decreases |reqs|
  {
    if |reqs| == 0 then st else Run(Handle(st, reqs[0]).store, reqs[1..])
  }

  /** A run keeps the store valid while the counter cannot wrap, and the
      counter moves on by at most one per request. */
  lemma {:induction false} RunValid(st: Store, reqs: seq<Request>)
    requires Valid(st) && st.next + |reqs| <= Int32Max
    ensures Valid(Run(st, reqs))
    ensures st.next <= Run(st, reqs).next <= st.next + |reqs|
    decreases |reqs|
  {
    if |reqs| > 0 {
      var st1 := Handle(st, reqs[0]).store;
      ApplyValid(st, Route(reqs[0].verb, reqs[0].path), reqs[0].body, NoRouteText);
      RunValid(st1, reqs[1..]);
    }
  }

  /** Every key present after a run was present before it or is at least
      the counter's value at its start. */
  lemma {:induction false} RunFreshKeys(st: Store, reqs: seq<Request>)
    requires Valid(st) && st.next + |reqs| <= Int32Max
    ensures forall k | k in Run(st, reqs).db :: k in st.db || st.next <= k
    decreases |reqs|
  {
    if |reqs| > 0 {
      var action := Route(reqs[0].verb, reqs[0].path);
      var st1 := Handle(st, reqs[0]).store;
      ApplyValid(st, action, reqs[0].body, NoRouteText);
      ApplyKeys(st, action, reqs[0].body, NoRouteText);
      RunFreshKeys(st1, reqs[1..]);
    }
  }

  /** An id is never handed out twice: once a request removes a student,
      no later request brings that id back, as long as the counter does
      not wrap. */
  lemma DeletedNeverReturns(st: Store, req: Request, reqs: seq<Request>, d: int)
    requires Valid(st) && st.next + 1 + |reqs| <= Int32Max
    requires d in st.db && d !in Handle(st, req).store.db
    ensures d !in Run(Handle(st, req).store, reqs).db
  {
    var st1 := Handle(st, req).store;
    ApplyValid(st, Route(req.verb, req.path), req.body, NoRouteText);
    RunFreshKeys(st1, reqs);
  }
}
