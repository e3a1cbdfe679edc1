/** `UserController::store`: sanitise the request, validate the sanitised
    fields against the create rules, and create the user only when validation
    passes. Laravel's validator is a parameter: how it evaluates each rule is
    library behaviour. */
module Controller {
  import opened Php
  import opened Sanitizer
  import opened Validation

  /** The validator's error bag: field name to its messages. */
  type ErrorBag = seq<(string, seq<string>)>

  /** `Validator::make($data, $rules, $messages)->errors()`; validation fails
      exactly when the bag is not empty. */
  type Validator = (PhpArray, RuleTable, seq<(string, string)>) -> ErrorBag

  const BadRequestStatus: int := 400

  /** What `store` answers: the error bag with its status, or the attributes
      handed to `User::create`. */
  datatype Response =
    | Rejected(status: int, errors: ErrorBag)
    | Create(attributes: PhpArray)

  method Store(request: PhpArray, stripTags: string -> string, validate: Validator)
    returns (resp: Response)
    ensures var errors := validate(Sanitized(Arr(request), stripTags), GetRules(None), Messages());
      && (resp.Create? <==> errors == [])
      && (resp.Rejected? ==> resp.status == 400 && resp.errors == errors)
      && (resp.Create? ==> resp.attributes == Sanitized(Arr(request), stripTags))
    ensures resp.Create? ==> IsClean(Arr(resp.attributes)) && WellFormed(Arr(resp.attributes))
    ensures resp.Create? ==>
      forall k :: Lookup(resp.attributes, k).Some? ==> Lookup(request, k).Some?
  {
    var data := FilterData(Arr(request), stripTags);
    var errors := validate(data, GetRules(None), Messages());
    if errors != [] {
      return Rejected(BadRequestStatus, errors);
    }
    SanitizedIsClean(Arr(request), stripTags);
    forall k | Lookup(data, k).Some? ensures Lookup(request, k).Some? {
      SanitizedKeysFromInput(Arr(request), k, stripTags);
    }
    resp := Create(data);
  }
}
