/**
 * The HTTP request router of router/router.go. A request is reduced to its URL
 * path, its method and its parsed form; the response to a body and a status code.
 */
module Router {
  import opened Wrappers
  import opened LegacyStore

  const NOT_FOUND_MSG := "404 There is no record in storage for this key.\n"
  const MALFORMED_MSG := "400 Malformed request.\n"

  /** A parsed form: each field name with its values, as `url.Values`. */
  type Form = map<string, seq<string>>

  /** `ParseForm` lists at least one value for every field it reports. */
  ghost predicate WellFormed(form: Form) {
    forall f :: f in form ==> form[f] != []
  }

  /**
   * getKeyFromURL: a path of fewer than six characters has no key; otherwise the
   * key is everything after the first five characters (the "/key/" prefix is not checked).
   */
  function GetKeyFromURL(inps: string): (res: (string, bool))
    ensures res.1 <==> |inps| >= 6
    ensures !res.1 ==> res.0 == ""
    ensures res.1 ==> res.0 != "" && |res.0| == |inps| - 5 && inps == inps[..5] + res.0
  {
    if |inps| < 6 then ("", false) else (inps[5..], true)
  }

  /** The two request handlers creator can return. */
  datatype Handler = MethodGet | MethodPost

  /** creator: the handler for a method name, none for anything but GET and POST. */
  function Creator(verb: string): (h: Option<Handler>)
    ensures h == Some(MethodGet) <==> verb == "GET"
    ensures h == Some(MethodPost) <==> verb == "POST"
    ensures h == None <==> verb != "GET" && verb != "POST"
  {
    if verb == "GET" then Some(MethodGet)
    else if verb == "POST" then Some(MethodPost)
    else None
  }

  /** methodGET: the stored value with 200, or the not-found message with 404; storage is untouched. */
  method MethodGET(stor: Store, key: string) returns (val: string, code: int)
    ensures key in stor.data ==> val == stor.data[key] && code == 200
    ensures key !in stor.data ==> val == NOT_FOUND_MSG && code == 404
  {
    code := 200;
    var res;
    val, res := stor.Get(key);
    if !res {
      val := NOT_FOUND_MSG;
      code := 404;
    }
  }

  /**
   * methodPOST: an empty form deletes the key (404 if it was absent); a form
   * with a `value` field stores its first value; any other form is a 400 and
   * leaves storage unchanged.
   */
  method MethodPOST(stor: Store, key: string, form: Form) returns (val: string, code: int)
    requires WellFormed(form)
    modifies stor
    ensures |form| == 0 ==>
      && stor.data == old(stor.data) - {key}
      && (key in old(stor.data) ==> val == "" && code == 200)
      && (key !in old(stor.data) ==> val == NOT_FOUND_MSG && code == 404)
    ensures |form| != 0 && "value" in form ==>
      stor.data == old(stor.data)[key := form["value"][0]] && val == "" && code == 200
    ensures |form| != 0 && "value" !in form ==>
      stor.data == old(stor.data) && val == MALFORMED_MSG && code == 400
  {
    val := "";
    code := 200;
    if |form| == 0 {
      var deleted := stor.Delete(key);
      if !deleted {
        code := 404;
        val := NOT_FOUND_MSG;
      }
    } else {
      if "value" in form {
        stor.Set(key, form["value"][0]);
      } else {
        code := 400;
        val := MALFORMED_MSG;
      }
    }
  }

  /**
   * The handler GetURLrouter returns: a path without a key or a method other
   * than GET and POST is a 400 that leaves storage unchanged; otherwise the
   * method's handler answers.
   */
  method HandleRequest(stor: Store, path: string, verb: string, form: Form)
    returns (body: string, code: int)
    requires WellFormed(form)
    modifies stor
    ensures !GetKeyFromURL(path).1 || Creator(verb).None? ==>
      body == MALFORMED_MSG && code == 400 && stor.data == old(stor.data)
    ensures GetKeyFromURL(path).1 && verb == "GET" ==>
      var key := GetKeyFromURL(path).0;
      && stor.data == old(stor.data)
      && (key in stor.data ==> body == stor.data[key] && code == 200)
      && (key !in stor.data ==> body == NOT_FOUND_MSG && code == 404)
    ensures GetKeyFromURL(path).1 && verb == "POST" && |form| == 0 ==>
      var key := GetKeyFromURL(path).0;
      && stor.data == old(stor.data) - {key}
      && (key in old(stor.data) ==> body == "" && code == 200)
      && (key !in old(stor.data) ==> body == NOT_FOUND_MSG && code == 404)
    ensures GetKeyFromURL(path).1 && verb == "POST" && "value" in form ==>
      && stor.data == old(stor.data)[GetKeyFromURL(path).0 := form["value"][0]]
      && body == "" && code == 200
    ensures GetKeyFromURL(path).1 && verb == "POST" && |form| != 0 && "value" !in form ==>
      stor.data == old(stor.data) && body == MALFORMED_MSG && code == 400
  {
    var (keyName, ok) := GetKeyFromURL(path);
    if !ok {
      return MALFORMED_MSG, 400;
    }
    var reqHandler := Creator(verb);
    if reqHandler.None? {
      return MALFORMED_MSG, 400;
    }
    match reqHandler.value
    case MethodGet =>
      body, code := MethodGET(stor, keyName);
    case MethodPost =>
      body, code := MethodPOST(stor, keyName, form);
  }
}
