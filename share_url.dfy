/** `updateUrlForSharing`: a URL's search and hash components are read into
    parameter records, updated, written back and the URL serialised again.
    The URL itself is an abstract record; parsing a URL string is a
    parameter of the entry point. */
module ShareUrl {
  import opened Wrappers
  import opened UriComponent
  import opened ParameterRecord
  import opened ParameterString
  import opened UpdateParameters

  /** A parsed URL: its serialisation up to the query (scheme, authority and
      path), its query without `?` and its fragment without `#`; an empty
      query or fragment is absent from the serialisation. */
  datatype Url = Url(prefix: string, query: string, fragment: string)

  /** Why `updateUrlForSharing` throws: the URL constructor rejects the URL
      string (a TypeError), or `decodeURIComponent` rejects an escape in a
      parameter (a URIError). */
  datatype Error = InvalidUrl | UriError

  /** `url.href`. */
  function HrefOf(u: Url): (href: string)
    ensures |href| >= |u.prefix| && href[..|u.prefix|] == u.prefix
  {
    u.prefix
    + (if u.query == [] then [] else ['?'] + u.query)
    + (if u.fragment == [] then [] else ['#'] + u.fragment)
  }

  /** `url.search`: `?` and the query, or "" when there is no query. */
  function SearchOf(u: Url): (search: string)
    ensures search == [] <==> u.query == []
    ensures search != [] ==> search[0] == '?' && search[1..] == u.query
  {
    if u.query == [] then [] else ['?'] + u.query
  }

  /** `url.hash`: `#` and the fragment, or "" when there is no fragment. */
  function HashOf(u: Url): (hash: string)
    ensures hash == [] <==> u.fragment == []
    ensures hash != [] ==> hash[0] == '#' && hash[1..] == u.fragment
  {
    if u.fragment == [] then [] else ['#'] + u.fragment
  }

  /** The value a component setter stores: the given value without one
      leading delimiter. */
  function WithoutLeading(value: string, delimiter: char): (r: string)
    ensures value == [] || value[0] != delimiter ==> r == value
    ensures value != [] && value[0] == delimiter ==> [delimiter] + r == value
  {
    if value != [] && value[0] == delimiter then value[1..] else value
  }

  /** The `search` setter on a URL value. */
  function WithSearch(u: Url, value: string): (v: Url)
    ensures v.prefix == u.prefix && v.fragment == u.fragment
    ensures SearchOf(v) == (if value == [] || value == ['?'] then [] else if value[0] == '?' then value else ['?'] + value)
  {
    u.(query := WithoutLeading(value, '?'))
  }

  /** The `hash` setter on a URL value. */
  function WithHash(u: Url, value: string): (v: Url)
    ensures v.prefix == u.prefix && v.query == u.query
    ensures HashOf(v) == (if value == [] || value == ['#'] then [] else if value[0] == '#' then value else ['#'] + value)
  {
    u.(fragment := WithoutLeading(value, '#'))
  }

  /** The URL object `updateUrlForSharing` constructs and updates. */
  class UrlObject {
    var prefix: string
    var query: string
    var fragment: string

    /** `new URL(...)` once the string has been parsed into u. */
    constructor (u: Url)
      ensures Value() == u
    {
      prefix, query, fragment := u.prefix, u.query, u.fragment;
    }

    function Value(): Url
      reads this
    {
      Url(prefix, query, fragment)
    }

    function Search(): string
      reads this
    {
      SearchOf(Value())
    }

    function Hash(): string
      reads this
    {
      HashOf(Value())
    }

    function Href(): string
      reads this
    {
      HrefOf(Value())
    }

    /** `url.search = value`. */
    method SetSearch(value: string)
      modifies this
      ensures Value() == WithSearch(old(Value()), value)
    {
      query := WithoutLeading(value, '?');
    }

    /** `url.hash = value`. */
    method SetHash(value: string)
      modifies this
      ensures Value() == WithHash(old(Value()), value)
    {
      fragment := WithoutLeading(value, '#');
    }
  }

  /** What `updateUrlForSharing` does to a parsed URL: both components are
      read into records (the hash first), updated, written back (the hash
      first) and the URL returned. */
  function UpdatedUrl(u: Url, newParameters: Record, applyToHash: bool): (r: Result<Url, Error>)
    ensures r.Ok? <==> DecodeParameters(u.query).Some? && DecodeParameters(u.fragment).Some?
    ensures r.Ok? ==> r.value.prefix == u.prefix
    ensures r.Err? ==> r.error == UriError
  {
    ComponentsRead(u);
    match (DecodeParameters(StripComponentDelimiter(HashOf(u))), DecodeParameters(StripComponentDelimiter(SearchOf(u))))
    case (Some(hashParameters), Some(searchParameters)) =>
      var updated := UpdateUrlParameters(newParameters, applyToHash, hashParameters, searchParameters);
      Ok(WithSearch(WithHash(u, EncodeParameters(updated.hash)), EncodeParameters(updated.search)))
    case _ => Err(UriError)
  }

  /** `updateUrlForSharing`: parse is the URL constructor's parser, None
      when it throws. The result is the serialisation of UpdatedUrl. */
  method UpdateUrlForSharing(urlToUpdate: string, parse: string -> Option<Url>,
                             newParameters: Record, applyToHash: bool)
    returns (href: Result<string, Error>)
    ensures parse(urlToUpdate).None? ==> href == Err(InvalidUrl)
    ensures parse(urlToUpdate).Some? ==>
      href == match UpdatedUrl(parse(urlToUpdate).value, newParameters, applyToHash)
              case Ok(v) => Ok(HrefOf(v))
              case Err(e) => Err(e)
  {
    var parsed := parse(urlToUpdate);
    if parsed.None? {
      return Err(InvalidUrl);
    }
    var url := new UrlObject(parsed.value);
    var hashParameters := DecodeParameters(StripComponentDelimiter(url.Hash()));
    var searchParameters := DecodeParameters(StripComponentDelimiter(url.Search()));
    if hashParameters.None? || searchParameters.None? {
      return Err(UriError);
    }
    var updated := UpdateUrlParameters(newParameters, applyToHash, hashParameters.value, searchParameters.value);
    var updatedHashParameterString := EncodeParameters(updated.hash);
    var updatedSearchParameterString := EncodeParameters(updated.search);
    url.SetHash(updatedHashParameterString);
    url.SetSearch(updatedSearchParameterString);
    return Ok(url.Href());
  }

  /** Stripping the delimiter from a getter's result gives the component. */
  lemma ComponentsRead(u: Url)
    ensures StripComponentDelimiter(SearchOf(u)) == u.query
    ensures StripComponentDelimiter(HashOf(u)) == u.fragment
  {
  }

  /** On success the prefix is kept and the components become the encoded
      updated records: the parameter strings have no `?` or `#`, so the
      setters store them as they are. */
  lemma UpdatedUrlComponents(u: Url, newParameters: Record, applyToHash: bool)
    requires DecodeParameters(u.query).Some? && DecodeParameters(u.fragment).Some?
    ensures var updated := UpdateUrlParameters(newParameters, applyToHash,
                             DecodeParameters(u.fragment).value, DecodeParameters(u.query).value);
      UpdatedUrl(u, newParameters, applyToHash) ==
        Ok(Url(u.prefix, EncodeParameters(updated.search), EncodeParameters(updated.hash)))
  {
    ComponentsRead(u);
  }

  /** Reading the parameters back from the updated URL gives the updated
      records, whenever those records survive a write and a read. */
  lemma ReadBackUpdatedUrl(u: Url, newParameters: Record, applyToHash: bool)
    requires DecodeParameters(u.query).Some? && DecodeParameters(u.fragment).Some?
    requires var updated := UpdateUrlParameters(newParameters, applyToHash,
                             DecodeParameters(u.fragment).value, DecodeParameters(u.query).value);
      RoundTrips(updated.search) && RoundTrips(updated.hash)
    ensures var updated := UpdateUrlParameters(newParameters, applyToHash,
                             DecodeParameters(u.fragment).value, DecodeParameters(u.query).value);
      var v := UpdatedUrl(u, newParameters, applyToHash);
      && v.Ok?
      && DecodeParameters(v.value.query) == Some(updated.search)
      && DecodeParameters(v.value.fragment) == Some(updated.hash)
  {
    var h, s := DecodeParameters(u.fragment).value, DecodeParameters(u.query).value;
    var updated := UpdateUrlParameters(newParameters, applyToHash, h, s);
    UpdatedUrlComponents(u, newParameters, applyToHash);
    UpdatedRecordsUnique(newParameters, applyToHash, h, s);
    DecodeEncodeParameters(updated.search);
    DecodeEncodeParameters(updated.hash);
  }

  /** When the components are the written forms of records with unique keys
      that survive a write and a read, the update reads exactly those
      records: the target becomes the target's entries with the new values
      of the shared keys, then the new keys in newParameters' order, and the
      other component loses the new keys and keeps its order. */
  lemma ShareFromWrittenRecords(prefix: string, searchParameters: Record, hashParameters: Record,
                                newParameters: Record, applyToHash: bool)
    requires UniqueKeys(searchParameters) && RoundTrips(searchParameters)
    requires UniqueKeys(hashParameters) && RoundTrips(hashParameters)
    requires UniqueKeys(newParameters)
    ensures var u := Url(prefix, EncodeParameters(searchParameters), EncodeParameters(hashParameters));
      var target := if applyToHash then hashParameters else searchParameters;
      var opposing := if applyToHash then searchParameters else hashParameters;
      var updatedTarget := Overridden(target, newParameters) + RemoveKeys(newParameters, Keys(target));
      var updatedOpposing := RemoveKeys(opposing, Keys(newParameters));
      UpdatedUrl(u, newParameters, applyToHash) ==
        if applyToHash then Ok(Url(prefix, EncodeParameters(updatedOpposing), EncodeParameters(updatedTarget)))
        else Ok(Url(prefix, EncodeParameters(updatedTarget), EncodeParameters(updatedOpposing)))
  {
    var u := Url(prefix, EncodeParameters(searchParameters), EncodeParameters(hashParameters));
    DecodeEncodeParameters(searchParameters);
    DecodeEncodeParameters(hashParameters);
    UpdatedUrlComponents(u, newParameters, applyToHash);
    UpdatedTarget(newParameters, applyToHash, hashParameters, searchParameters);
  }

  /** A component that is the written form of a record none of whose keys
      are new is left exactly as it was when the other component is the
      target. */
  lemma UntouchedComponentKept(u: Url, newParameters: Record, applyToHash: bool, opposing: Record)
    requires UniqueKeys(opposing) && RoundTrips(opposing)
    requires (if applyToHash then u.query else u.fragment) == EncodeParameters(opposing)
    requires DecodeParameters(if applyToHash then u.fragment else u.query).Some?
    requires forall k :: k in Keys(newParameters) ==> k !in Keys(opposing)
    ensures var v := UpdatedUrl(u, newParameters, applyToHash);
      v.Ok? && (if applyToHash then v.value.query == u.query else v.value.fragment == u.fragment)
  {
    DecodeEncodeParameters(opposing);
    UpdatedUrlComponents(u, newParameters, applyToHash);
    RemoveAbsentKeys(opposing, Keys(newParameters));
  }

  /** Sharing from a URL without query or fragment puts newParameters, in
      their order, into the target and leaves the other component absent. */
  lemma ShareFromBareUrl(prefix: string, newParameters: Record, applyToHash: bool)
    requires UniqueKeys(newParameters)
    ensures UpdatedUrl(Url(prefix, [], []), newParameters, applyToHash) ==
      if applyToHash then Ok(Url(prefix, [], EncodeParameters(newParameters)))
      else Ok(Url(prefix, EncodeParameters(newParameters), []))
  {
    var none: Record := [];
    UpdatedUrlComponents(Url(prefix, [], []), newParameters, applyToHash);
    PutAllIntoEmptyCopies(newParameters);
    assert EncodeParameters(none) == [];
  }
}
