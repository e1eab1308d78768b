/** The REST router of host/src/firmware/networking/restRouter.ts: endpoints
    are kept in a map under the key `method + ":" + path`, and a request
    whose key is not in the map is answered 404.

    An endpoint's asynchronous handler is represented by the body it
    answers with. */
module RestRouter {

  datatype HttpMethod = GET | POST

  datatype RestEndpoint = RestEndpoint(path: string, verb: HttpMethod, body: string)

  datatype RestRequest = RestRequest(verb: HttpMethod, path: string)

  datatype RestResponse = RestResponse(status: nat, body: string)

  datatype Router = Router(endpoints: map<string, RestEndpoint>)

  /** The serialised `{ error: 'Not found' }` body of a 404. */
  const NotFoundBody: string := "{\"error\":\"Not found\"}"

  function MethodName(m: HttpMethod): string {
    match m
    case GET => "GET"
    case POST => "POST"
  }

  /** The map key of a method and a path. */
  function RouteKey(m: HttpMethod, path: string): string {
    MethodName(m) + ":" + path
  }

  /** Method names hold no ':', so the key determines method and path. */
  lemma RouteKeyInjective(m1: HttpMethod, p1: string, m2: HttpMethod, p2: string)
    requires RouteKey(m1, p1) == RouteKey(m2, p2)
    ensures m1 == m2 && p1 == p2
  {
    var k := RouteKey(m1, p1);
    assert k[0] == MethodName(m1)[0] == MethodName(m2)[0];
    var n := |MethodName(m1)| + 1;
    assert k[n..] == p1;
    assert RouteKey(m2, p2)[n..] == p2;
  }

  /** A router with no endpoint. */
  function NewRouter(): (r: Router)
    ensures forall req :: Handle(r, req) == RestResponse(404, NotFoundBody)
  {
    Router(map[])
  }

  /** Adds `e`, replacing an endpoint registered under the same method and path. */
  function Register(r: Router, e: RestEndpoint): (r': Router)
    ensures Handle(r', RestRequest(e.verb, e.path)) == RestResponse(200, e.body)
    ensures forall req: RestRequest :: req.verb != e.verb || req.path != e.path ==> Handle(r', req) == Handle(r, req)
  {
    var r' := Router(r.endpoints[RouteKey(e.verb, e.path) := e]);
    forall req: RestRequest | req.verb != e.verb || req.path != e.path
      ensures Handle(r', req) == Handle(r, req)
    {
      if RouteKey(req.verb, req.path) == RouteKey(e.verb, e.path) {
        RouteKeyInjective(req.verb, req.path, e.verb, e.path);
        assert false;
      }
    }
    r'
  }

  /** Answers 200 with the endpoint's body when the method and path are
      registered, 404 otherwise. */
  function Handle(r: Router, req: RestRequest): (resp: RestResponse)
    ensures resp.status == 200 || resp.status == 404
    ensures resp.status == 404 <==> RouteKey(req.verb, req.path) !in r.endpoints
    ensures resp.status == 404 ==> resp.body == NotFoundBody
  {
    var key := RouteKey(req.verb, req.path);
    if key !in r.endpoints then RestResponse(404, NotFoundBody)
    else RestResponse(200, r.endpoints[key].body)
  }

  /** Re-registering a method and path keeps only the later endpoint. */
  lemma ReregisterReplaces(r: Router, e1: RestEndpoint, e2: RestEndpoint)
    requires e1.verb == e2.verb && e1.path == e2.path
    ensures forall req :: Handle(Register(Register(r, e1), e2), req) == Handle(Register(r, e2), req)
  {
    assert Register(Register(r, e1), e2) == Register(r, e2);
  }

  /** The same path under GET and under POST are separate routes. */
  lemma MethodsAreSeparate(path: string, body: string)
    ensures var r := Register(NewRouter(), RestEndpoint(path, GET, body));
            && Handle(r, RestRequest(GET, path)).status == 200
            && Handle(r, RestRequest(POST, path)).status == 404
  {
  }
}
