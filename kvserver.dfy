/**
 * The request handler of kvserver.go (getHandler). It writes a status code
 * only on the error paths; where it writes none, the HTTP server answers 200.
 */
module KVServer {
  import opened Wrappers
  import opened LegacyStore
  import Router

  /** What the handler wrote: an explicit status code, if any, and the body. */
  datatype Response = Response(status: Option<int>, body: string)

  /** getKeyFromURL, the same rule as the router's: the text after the first five characters. */
  function GetKeyFromURL(inps: string): (res: (string, bool))
    ensures res.1 <==> |inps| >= 6
    ensures !res.1 ==> res.0 == ""
    ensures res.1 ==> res.0 != "" && |res.0| == |inps| - 5 && inps == inps[..5] + res.0
  {
    if |inps| < 6 then ("", false) else (inps[5..], true)
  }

  /** The two copies of getKeyFromURL agree on every path. */
  lemma SameKeyRule(inps: string)
    ensures GetKeyFromURL(inps) == Router.GetKeyFromURL(inps)
  {
  }

  /**
   * The closure getHandler returns. No key: 400 and nothing else. GET: the
   * value, with 404 when absent. POST with an empty form: delete, 404 when
   * nothing was deleted. POST with `value`: store its first value. Other POST
   * forms: 400. Any other method: no status, no change.
   */
  method Handle(stor: Store, path: string, verb: string, form: Router.Form)
    returns (resp: Response)
    requires Router.WellFormed(form)
    modifies stor
    ensures !GetKeyFromURL(path).1 ==>
      resp == Response(Some(400), "") && stor.data == old(stor.data)
    ensures GetKeyFromURL(path).1 && verb == "GET" ==>
      var key := GetKeyFromURL(path).0;
      && stor.data == old(stor.data)
      && (key in stor.data ==> resp == Response(None, stor.data[key]))
      && (key !in stor.data ==> resp == Response(Some(404), ""))
    ensures GetKeyFromURL(path).1 && verb == "POST" && |form| == 0 ==>
      var key := GetKeyFromURL(path).0;
      && stor.data == old(stor.data) - {key}
      && resp == Response(if key in old(stor.data) then None else Some(404), "")
    ensures GetKeyFromURL(path).1 && verb == "POST" && "value" in form ==>
      stor.data == old(stor.data)[GetKeyFromURL(path).0 := form["value"][0]]
      && resp == Response(None, "")
    ensures GetKeyFromURL(path).1 && verb == "POST" && |form| != 0 && "value" !in form ==>
      stor.data == old(stor.data) && resp == Response(Some(400), "")
    ensures GetKeyFromURL(path).1 && verb != "GET" && verb != "POST" ==>
      stor.data == old(stor.data) && resp == Response(None, "")
  {
    var (keyName, ok) := GetKeyFromURL(path);
    if !ok {
      return Response(Some(400), "");
    }
    resp := Response(None, "");
    if verb == "GET" {
      var val, res := stor.Get(keyName);
      if !res {
        resp := resp.(status := Some(404));
      }
      resp := resp.(body := val);
    } else if verb == "POST" {
      if |form| == 0 {
        var deleted := stor.Delete(keyName);
        if !deleted {
          resp := resp.(status := Some(404));
        }
      } else {
        if "value" in form {
          stor.Set(keyName, form["value"][0]);
        } else {
          resp := resp.(status := Some(400));
        }
      }
    }
  }
}
