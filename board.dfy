/**
 * The page's ad list across a session. Each run of the script loads the list
 * from the ads file; a successful submission appends one record, saves the
 * list and restarts the script, which loads it again. Taking the save and the
 * reload to give back the same list, the list of successive runs is the start-up
 * list grown by successful submissions, never edited or shrunk.
 */
module Board {
  import opened Wrappers
  import opened Text
  import opened Ads

  /** What reading the ads file can find. */
  datatype StoredFile = Missing | Unreadable | Parsed(ads: seq<Ad>)

  /** The list read at start-up: whatever the file holds, or no ads when it is absent or unreadable. */
  function Load(file: StoredFile): (r: seq<Ad>)
    ensures file.Parsed? ==> r == file.ads
    ensures !file.Parsed? ==> r == []
  {
    match file
    case Parsed(ads) => ads
    case _ => []
  }

  /** Every record in the list satisfies the stored-record invariant. */
  predicate AllWellFormed(ads: seq<Ad>) {
    forall i :: 0 <= i < |ads| ==> WellFormed(ads[i])
  }

  /**
   * The list after submitting `form` to `ads`: the error when a required field
   * is blank, otherwise `ads` with the new record appended.
   */
  function Post(ads: seq<Ad>, form: Form, encode: seq<byte> -> string): (r: Result<seq<Ad>, SubmitError>)
    ensures r.Failure? <==> !Accepts(form)
    ensures r.Success? ==> |r.value| == |ads| + 1 && r.value[..|ads|] == ads
    ensures r.Success? ==> r.value[|ads|] == NewAd(form, encode) && WellFormed(r.value[|ads|])
  {
    if Accepts(form) then Success(ads + [NewAd(form, encode)]) else Failure(MissingRequired)
  }

  /** Appending a well-formed record to a list of well-formed records keeps them all well formed. */
  lemma AppendKeepsWellFormed(ads: seq<Ad>, ad: Ad)
    requires AllWellFormed(ads) && WellFormed(ad)
    ensures AllWellFormed(ads + [ad])
  {
    forall i | 0 <= i < |ads| + 1 ensures WellFormed((ads + [ad])[i]) {
      if i < |ads| {
        assert (ads + [ad])[i] == ads[i];
      }
    }
  }

  /** A successful submission keeps the list's records well formed. */
  lemma PostKeepsWellFormed(ads: seq<Ad>, form: Form, encode: seq<byte> -> string)
    requires AllWellFormed(ads)
    ensures Post(ads, form, encode).Success? ==> AllWellFormed(Post(ads, form, encode).value)
  {
    if Accepts(form) {
      AppendKeepsWellFormed(ads, NewAd(form, encode));
    }
  }

  /**
   * The page's ad list. Each call of `Submit` stands for one run that ends in
   * a press of the post button; `ads` carries the list from one run to the
   * next through the save and the reload.
   */
  class Board {
    var ads: seq<Ad>

    /** Loads the list from the ads file. */
    constructor (file: StoredFile)
      ensures ads == Load(file)
    {
      match file {
        case Parsed(stored) => ads := stored;
        case _ => ads := [];
      }
    }

    /**
     * Handles a press of the post button: checks the required fields, builds
     * the record field by field, adds the image only when one was attached,
     * and appends the record.
     */
    method Submit(form: Form, encode: seq<byte> -> string) returns (outcome: Result<Ad, SubmitError>)
      modifies this
      ensures outcome.Failure? <==> Post(old(ads), form, encode).Failure?
      ensures outcome.Failure? ==> ads == old(ads) && outcome.error == MissingRequired
      ensures outcome.Failure? ==> Message(outcome.error) == "Title, description, and contact are required!"
      ensures outcome.Success? ==> ads == Post(old(ads), form, encode).value && ads == old(ads) + [outcome.value]
      ensures AllWellFormed(old(ads)) ==> AllWellFormed(ads)
    {
      if Strip(form.title) == [] || Strip(form.description) == [] || Strip(form.contact) == [] {
        return Failure(MissingRequired);
      }
      assert Accepts(form);
      var seller := Strip(form.seller);
      if seller == [] {
        seller := DefaultSeller;
      }
      var price: Option<real> := None;
      if form.price > 0.0 {
        price := Some(form.price);
      }
      var ad := Ad(Strip(form.title), seller, form.category, Strip(form.description),
                   price, Strip(form.contact), None);
      if form.image.Some? {
        ad := ad.(imageBase64 := Some(encode(form.image.value)));
      }
      assert ad == NewAd(form, encode);
      ads := ads + [ad];
      if AllWellFormed(old(ads)) {
        PostKeepsWellFormed(old(ads), form, encode);
      }
      return Success(ad);
    }
  }
}
