/**
 * The application's error values: a numeric code that the HTTP layer maps to a
 * status, and a human-readable message that may be a one-`%s` template.
 * `NewCustomError(code, message)` is the datatype constructor `CustomError`;
 * Go returns a pointer, but nothing ever mutates one, so a value models it.
 */
module Errors {
  import opened GoStrings

  const InternalErrorCode: int := 0
  const NotFoundCode: int := 1
  const BadRequestCode: int := 2

  datatype CustomError = CustomError(code: int, message: string) {

    /**
     * A fresh error with the same code whose message is this message used as a
     * template for the comma-joined parameters. The receiver, being a value,
     * is untouched; so the shared predefined errors never change.
     */
    function WithParams(params: seq<string>): (e: CustomError)
      requires StringVerbsOnly(message)
      ensures e.code == code
    {
      CustomError(code, Sprintf(message, Join(params, ",")))
    }

    /** The `error` interface: the message, verbatim. */
    function Error(): string
    {
      message
    }
  }

  const InternalError := CustomError(InternalErrorCode, "Internal server error.")
  const NotFoundItems := CustomError(NotFoundCode, "Items not found: %s.")
  const InvalidItems := CustomError(BadRequestCode, "Invalid items: %s.")
  const AtLeastOneItem := CustomError(BadRequestCode, "You must provide at least one item code.")
  const InvalidFormat := CustomError(BadRequestCode, "Request invalid format.")
  const MaxItemsExceded := CustomError(BadRequestCode, "Max items quantity exceded.")

  /**
   * For a template `pre + "%s" + post` the parameters, comma-joined, replace the
   * verb and everything else of the message is kept.
   */
  lemma WithParamsFillsTemplate(e: CustomError, pre: string, post: string, params: seq<string>)
    requires e.message == pre + "%s" + post
    requires '%' !in pre && '%' !in post
    ensures StringVerbsOnly(e.message)
    ensures e.WithParams(params) == CustomError(e.code, pre + Join(params, ",") + post)
  {
    SprintfOneVerb(pre, post, Join(params, ","));
  }

  /** The not-found error lists the codes between its fixed prefix and the final dot. */
  lemma NotFoundItemsMessage(params: seq<string>)
    ensures StringVerbsOnly(NotFoundItems.message)
    ensures NotFoundItems.WithParams(params)
         == CustomError(NotFoundCode, "Items not found: " + Join(params, ",") + ".")
  {
    assert NotFoundItems.message == "Items not found: " + "%s" + ".";
    WithParamsFillsTemplate(NotFoundItems, "Items not found: ", ".", params);
  }

  /** The invalid-items error lists the codes between its fixed prefix and the final dot. */
  lemma InvalidItemsMessage(params: seq<string>)
    ensures StringVerbsOnly(InvalidItems.message)
    ensures InvalidItems.WithParams(params)
         == CustomError(BadRequestCode, "Invalid items: " + Join(params, ",") + ".")
  {
    assert InvalidItems.message == "Invalid items: " + "%s" + ".";
    WithParamsFillsTemplate(InvalidItems, "Invalid items: ", ".", params);
  }

  /** The codes are consecutive from zero and distinct, as `iota` makes them. */
  lemma ErrorCodes()
    ensures InternalErrorCode == 0 && NotFoundCode == 1 && BadRequestCode == 2
    ensures InternalError.code == InternalErrorCode && NotFoundItems.code == NotFoundCode
    ensures InvalidItems.code == BadRequestCode && AtLeastOneItem.code == BadRequestCode
    ensures InvalidFormat.code == BadRequestCode && MaxItemsExceded.code == BadRequestCode
    ensures InternalError.Error() == "Internal server error."
  {
  }

  /** The not-found message for two codes separates them by a comma. */
  lemma NotFoundTwo(a: string, b: string)
    ensures StringVerbsOnly(NotFoundItems.message)
    ensures NotFoundItems.WithParams([a, b]).Error() == "Items not found: " + a + "," + b + "."
  {
    var codes := [a, b];
    NotFoundItemsMessage(codes);
    var msg := NotFoundItems.WithParams(codes).Error();
    assert msg == "Items not found: " + Join(codes, ",") + ".";
    assert codes[1..] == [b];
    assert Join(codes, ",") == a + "," + b;
    Reassociate("Items not found: ", a, ",", b, ".");
  }

  /** Concatenation regrouped; kept apart so that the literal message is not unfolded. */
  lemma Reassociate(p: string, x: string, y: string, z: string, q: string)
    ensures p + (x + y + z) + q == p + x + y + z + q
  {
  }
}
