/** Request fields and error responses as the controllers see them. */
module Http {
  import opened Wrappers

  /** An error response: its HTTP status and the `error` message of its JSON body. */
  datatype ApiError = ApiError(status: int, message: string)

  type Outcome<T> = Result<T, ApiError>

  /**
    One field of a JSON request body (or one cookie / query argument): `None` when
    the key is absent. JSON `null` and `""` are both `Some("")`, since every check the
    controllers make treats them alike.
  */
  type Field = Option<string>

  /** Python truthiness of `data.get(key)`: the key is present and its value non-empty. */
  predicate Filled(f: Field) {
    f.Some? && f.value != ""
  }

  /** `data.get(key, default)`. */
  function OrDefault(f: Field, default: string): string {
    if f.Some? then f.value else default
  }

  function Fail<T>(status: int, message: string): Outcome<T> {
    Failure(ApiError(status, message))
  }

  /** The 401 every controller returns when no identity is attached to the request. */
  const NotAuthenticated := "User not authenticated"

  /**
    The message of the first check that does not hold, when checks run in order and
    the first failing one ends the request.
  */
  function FirstFailing(checks: seq<(bool, string)>): (r: Option<string>)
    ensures r.None? <==> forall k :: 0 <= k < |checks| ==> checks[k].0
    ensures r.Some? ==> exists k :: 0 <= k < |checks| && !checks[k].0 && r.value == checks[k].1
                                    && forall j :: 0 <= j < k ==> checks[j].0
  {
    if |checks| == 0 then None
    else if !checks[0].0 then Some(checks[0].1)
    else FirstFailing(checks[1..])
  }

  /** The first failing check is reported, whatever the later checks say. */
  lemma {:induction false} FirstFailingIsFirst(checks: seq<(bool, string)>, k: nat)
    requires k < |checks| && !checks[k].0
    requires forall j :: 0 <= j < k ==> checks[j].0
    ensures FirstFailing(checks) == Some(checks[k].1)
  {
    if k > 0 {
      FirstFailingIsFirst(checks[1..], k - 1);
    }
  }
}
