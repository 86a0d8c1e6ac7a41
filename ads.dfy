/**
 * The ad record, the posting form, and the rules that turn a submitted form
 * into a record: which fields are required and how each stored field is
 * derived from its input.
 */
module Ads {
  import opened Wrappers
  import opened Text

  /** One byte of an uploaded image file. */
  newtype byte = x: int | 0 <= x < 256

  /** The closed set of categories the posting form offers. */
  const Categories: seq<string> :=
    ["Electronics", "Fashion & Beauty", "Home & Garden", "Vehicles", "Books", "Sports", "Other"]

  /** The seller shown when the poster leaves their name empty. */
  const DefaultSeller: string := "Anonymous"

  /** The message shown when a required field is missing. */
  const RequiredMessage: string := "Title, description, and contact are required!"

  /**
   * A stored ad. `price` is the record's `price` key (`None` meaning
   * "contact for price"); `imageBase64` is `None` when the record has no
   * `image_base64` key at all.
   */
  datatype Ad = Ad(
    title: string,
    seller: string,
    category: string,
    description: string,
    price: Option<real>,
    contact: string,
    imageBase64: Option<string>)

  /** The raw values of the posting form when it is submitted. */
  datatype Form = Form(
    title: string,
    seller: string,
    category: string,
    description: string,
    price: real,
    contact: string,
    image: Option<seq<byte>>)

  /** Why a submission was turned down. */
  datatype SubmitError = MissingRequired

  /** The text shown to the poster for each error. */
  function Message(e: SubmitError): string {
    match e
    case MissingRequired => RequiredMessage
  }

  /**
   * The check on submission: title, description and contact each hold
   * something other than whitespace. A form is turned down exactly when one of
   * them is empty or whitespace only.
   */
  predicate Accepts(form: Form)
    ensures !Accepts(form) <==> AllSpace(form.title) || AllSpace(form.description) || AllSpace(form.contact)
  {
    StripEmptyIff(form.title);
    StripEmptyIff(form.description);
    StripEmptyIff(form.contact);
    Strip(form.title) != [] && Strip(form.description) != [] && Strip(form.contact) != []
  }

  /** A text field that is stored: non-empty and without surrounding whitespace. */
  predicate Filled(s: string) {
    s != [] && Stripped(s)
  }

  /** What every record built from an accepted form satisfies. */
  predicate WellFormed(ad: Ad) {
    && Filled(ad.title)
    && Filled(ad.description)
    && Filled(ad.contact)
    && Filled(ad.seller)
    && (ad.price.Some? ==> ad.price.value > 0.0)
  }

  /** The stored seller: the trimmed name, or the default when that is empty. */
  function SellerOf(name: string): (r: string)
    ensures Filled(r)
    ensures Strip(name) != [] ==> r == Strip(name)
    ensures Strip(name) == [] ==> r == DefaultSeller
  {
    var s := Strip(name);
    if s != [] then s else DefaultSeller
  }

  /** The stored price: kept only when positive. */
  function PriceOf(price: real): (r: Option<real>)
    ensures r.None? <==> price <= 0.0
    ensures r.Some? ==> r.value == price && r.value > 0.0
  {
    if price > 0.0 then Some(price) else None
  }

  /**
   * The record built from a form, as the page builds it once the form is
   * accepted; `encode` stands for the base64 encoding of the uploaded image's
   * bytes.
   */
  function NewAd(form: Form, encode: seq<byte> -> string): (ad: Ad)
    ensures Accepts(form) ==> WellFormed(ad)
    ensures Filled(ad.seller) && (ad.price.Some? ==> ad.price.value > 0.0)
    ensures ad.title == Strip(form.title) && ad.description == Strip(form.description)
    ensures ad.contact == Strip(form.contact) && ad.category == form.category
    ensures ad.seller == SellerOf(form.seller) && ad.price == PriceOf(form.price)
    ensures ad.imageBase64.Some? <==> form.image.Some?
    ensures form.image.Some? ==> ad.imageBase64.value == encode(form.image.value)
  {
    var ad := Ad(Strip(form.title), SellerOf(form.seller), form.category,
                 Strip(form.description), PriceOf(form.price), Strip(form.contact), None);
    if form.image.Some? then ad.(imageBase64 := Some(encode(form.image.value))) else ad
  }
}
