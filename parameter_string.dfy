/** Reading a search or hash component into a parameter record, and writing
    a record back (`constructParametersFromString` and
    `constructParameterStringFromParameters`). */
module ParameterString {
  import opened Wrappers
  import opened Splitting
  import opened UriComponent
  import opened ParameterRecord

  const ParameterSeparator: char := '&'
  const KeyValueSeparator: char := '='

  /** `removeUrlComponentTypeCharacterFromParameterString`: `s.slice(1)`, the
      component without its leading `?` or `#`. */
  function StripComponentDelimiter(s: string): (r: string)
    ensures s == [] ==> r == []
    ensures s != [] ==> |r| == |s| - 1 && s == [s[0]] + r
  {
    if s == [] then [] else s[1..]
  }

  /** One `&`-separated token, read as the reducer of
      `constructParametersFromString` reads it: a token without `=` is a key
      with no value and is not percent-decoded; otherwise the pieces before
      the first `=` and between the first and second `=` are decoded into
      the key and the value. None when `decodeURIComponent` throws. */
  function ParseToken(token: string): (e: Option<Entry>)
    ensures KeyValueSeparator !in token ==> e == Some((token, None))
    ensures e.Some? ==> (e.value.1 == None <==> KeyValueSeparator !in token)
  {
    if KeyValueSeparator !in token then Some((token, None))
    else
      var pieces := Split(token, KeyValueSeparator);
      match (Decode(pieces[0]), Decode(pieces[1]))
      case (Some(k), Some(v)) => Some((k, Some(v)))
      case _ => None
  }

  /** Every token read in turn; None as soon as one of them throws. */
  function ParseTokens(tokens: seq<string>): (r: Option<Record>)
    ensures r.Some? <==> forall i :: 0 <= i < |tokens| ==> ParseToken(tokens[i]).Some?
    ensures r.Some? ==> |r.value| == |tokens|
    ensures r.Some? ==> forall i :: 0 <= i < |tokens| ==> ParseToken(tokens[i]) == Some(r.value[i])
  {
    if tokens == [] then Some([])
    else
      match (ParseToken(tokens[0]), ParseTokens(tokens[1..]))
      case (Some(e), Some(rest)) =>
        assert forall i :: 1 <= i < |tokens| ==> tokens[i] == tokens[1..][i - 1];
        Some([e] + rest)
      case (None, _) => None
      case (_, None) =>
        assert forall i :: 1 <= i < |tokens| ==> tokens[i] == tokens[1..][i - 1];
        None
  }

  /** `constructParametersFromString`: the empty string is the empty record;
      otherwise each `&`-separated token is read and written into the record
      in turn, so a repeated key keeps its first place and takes its last value. */
  function DecodeParameters(s: string): (r: Option<Record>)
    ensures s == [] ==> r == Some([])
    ensures r.Some? ==> UniqueKeys(r.value)
  {
    if s == [] then Some([])
    else
      match ParseTokens(Split(s, ParameterSeparator))
      case None => None
      case Some(entries) =>
        PutAllKeys([], entries);
        Some(PutAll([], entries))
  }

  /** One entry as `constructParameterStringFromParameters` writes it: the
      encoded key alone when the value is absent, else `key=value` encoded. */
  function EncodeEntry(e: Entry): (token: string)
    ensures ParameterSeparator !in token && '?' !in token && '#' !in token
    ensures (KeyValueSeparator in token) == e.1.Some?
    ensures token == [] <==> e == ([], None)
  {
    var key := Encode(e.0);
    EncodedOmits(e.0);
    match e.1
    case None => key
    case Some(v) =>
      EncodedOmits(v);
      var token := key + [KeyValueSeparator] + Encode(v);
      assert token[|key|] == KeyValueSeparator;
      token
  }

  /** Encoded text has none of the characters that delimit parameters and components. */
  lemma EncodedOmits(s: string)
    ensures var r := Encode(s);
      ParameterSeparator !in r && KeyValueSeparator !in r && '?' !in r && '#' !in r
    ensures Encode(s) == [] <==> s == []
  {
    EncodedLacks(s, ParameterSeparator);
    EncodedLacks(s, KeyValueSeparator);
    EncodedLacks(s, '?');
    EncodedLacks(s, '#');
  }

  lemma EncodedLacks(s: string, c: char)
    requires !Unreserved(c) && c != '%'
    ensures c !in Encode(s)
  {
    var r := Encode(s);
    assert EscapedForm(r);
    forall i | 0 <= i < |r| ensures r[i] != c {
    }
  }

  function EncodeEntries(r: Record): (tokens: seq<string>)
    ensures |tokens| == |r|
    ensures forall i :: 0 <= i < |r| ==> tokens[i] == EncodeEntry(r[i])
  {
    seq(|r|, i requires 0 <= i < |r| => EncodeEntry(r[i]))
  }

  /** `constructParameterStringFromParameters`: the encoded entries joined
      with `&`. The result has no `?` or `#`, and is empty only for the
      empty record and for a lone empty key without a value. */
  function EncodeParameters(r: Record): (s: string)
    ensures '?' !in s && '#' !in s
    ensures s == [] <==> r == [] || r == [([], None)]
  {
    var tokens := EncodeEntries(r);
    JoinOmits(tokens, ParameterSeparator, '?');
    JoinOmits(tokens, ParameterSeparator, '#');
    JoinEmpty(tokens, ParameterSeparator);
    assert tokens == [[]] ==> r[0] == ([], None);
    assert r == [([], None)] ==> tokens == [[]];
    Join(tokens, ParameterSeparator)
  }

  /** An encoded record splits back into its encoded entries. */
  lemma SplitEncodedParameters(r: Record)
    requires r != []
    ensures Split(EncodeParameters(r), ParameterSeparator) == EncodeEntries(r)
  {
    SplitJoin(EncodeEntries(r), ParameterSeparator);
  }

  /** A token with `=`: the key is the decoded text before the first `=`
      and the value the decoded text between the first `=` and the next one
      (or the end); reading fails exactly when one of the two does not decode. */
  lemma ParseTokenFields(token: string, i: nat, j: nat)
    requires i < j <= |token| && token[i] == KeyValueSeparator
    requires KeyValueSeparator !in token[..i] && KeyValueSeparator !in token[i + 1..j]
    requires j == |token| || token[j] == KeyValueSeparator
    ensures ParseToken(token) ==
      match (Decode(token[..i]), Decode(token[i + 1..j]))
      case (Some(k), Some(v)) => Some((k, Some(v)))
      case _ => None
  {
    SplitFirstTwo(token, KeyValueSeparator, i, j);
    assert KeyValueSeparator in token;
  }

  /** Whatever follows a second `=` in a token is dropped. */
  lemma TextAfterSecondSeparatorIgnored(key: string, value: string, dropped: string)
    requires KeyValueSeparator !in key && KeyValueSeparator !in value
    ensures ParseToken(key + [KeyValueSeparator] + value + [KeyValueSeparator] + dropped)
         == ParseToken(key + [KeyValueSeparator] + value)
  {
    var long := key + [KeyValueSeparator] + value + [KeyValueSeparator] + dropped;
    var short := key + [KeyValueSeparator] + value;
    var i, j := |key|, |key| + 1 + |value|;
    assert long[..i] == key == short[..i];
    assert long[i + 1..j] == value == short[i + 1..j];
    ParseTokenFields(long, i, j);
    ParseTokenFields(short, i, j);
  }

  /** A token with exactly one `=` reads as its decoded sides. */
  lemma ParsePair(key: string, value: string)
    requires KeyValueSeparator !in key && KeyValueSeparator !in value
    ensures ParseToken(key + [KeyValueSeparator] + value) ==
      match (Decode(key), Decode(value))
      case (Some(k), Some(v)) => Some((k, Some(v)))
      case _ => None
  {
    var token := key + [KeyValueSeparator] + value;
    var i := |key|;
    assert token[..i] == key;
    assert token[i + 1..|token|] == value;
    assert token[i] == KeyValueSeparator;
    ParseTokenFields(token, i, |token|);
  }

  /** Reading an encoded key and value gives them back. */
  lemma ParseEncodedPair(key: string, value: string)
    ensures ParseToken(Encode(key) + [KeyValueSeparator] + Encode(value)) == Some((key, Some(value)))
  {
    EncodedOmits(key);
    EncodedOmits(value);
    ParsePair(Encode(key), Encode(value));
    DecodeEncode(key);
    DecodeEncode(value);
  }

  /** Reading an encoded entry gives the entry back, except that a key without
      a value stays in its encoded form. */
  lemma ParseEncodedEntry(e: Entry)
    ensures ParseToken(EncodeEntry(e)) == Some(if e.1.None? then (Encode(e.0), None) else e)
  {
    if e.1.None? {
      EncodedOmits(e.0);
    } else {
      ParseEncodedPair(e.0, e.1.value);
    }
  }

  /** A non-empty component decodes when every token reads, to the record
      whose keys are the tokens' keys in order of first occurrence and whose
      values are the last value read for each key. */
  lemma DecodedRecord(s: string)
    requires s != []
    ensures DecodeParameters(s).Some? <==> forall i :: 0 <= i < |Split(s, ParameterSeparator)| ==> ParseToken(Split(s, ParameterSeparator)[i]).Some?
    ensures DecodeParameters(s).Some? ==>
      var entries := ParseTokens(Split(s, ParameterSeparator)).value;
      var r := DecodeParameters(s).value;
      && |entries| == |Split(s, ParameterSeparator)|
      && Keys(r) == Dedup(Keys(entries))
      && forall k :: k in Keys(entries) ==> k in Keys(r) && Get(r, k) == Last(entries, k)
  {
    var tokens := Split(s, ParameterSeparator);
    assert DecodeParameters(s).Some? == ParseTokens(tokens).Some?;
    if ParseTokens(tokens).Some? {
      var entries := ParseTokens(tokens).value;
      PutAllIntoEmpty(entries);
      forall k | k in Keys(entries) ensures k in Keys(PutAll([], entries)) && Get(PutAll([], entries), k) == Last(entries, k) {
        PutAllGet([], entries, k);
      }
    }
  }

  /** A trailing `&` adds the empty key without a value. */
  lemma TrailingSeparator(s: string)
    requires s != []
    ensures DecodeParameters(s + [ParameterSeparator]) ==
      match DecodeParameters(s)
      case None => None
      case Some(r) => Some(Put(r, [], None))
  {
    var tokens := Split(s, ParameterSeparator);
    SplitTrailingSeparator(s, ParameterSeparator);
    assert ParseToken([]) == Some(([], None));
    ParseTokensSnoc(tokens, []);
    if ParseTokens(tokens).Some? {
      var entries := ParseTokens(tokens).value;
      var longer := entries + [([], None)];
      assert longer[..|entries|] == entries;
    }
  }

  /** Reading one more token appends its entry, or fails when it fails. */
  lemma ParseTokensSnoc(tokens: seq<string>, t: string)
    ensures ParseTokens(tokens + [t]) ==
      match (ParseTokens(tokens), ParseToken(t))
      case (Some(r), Some(e)) => Some(r + [e])
      case _ => None
  {
    var more := tokens + [t];
    assert more[|tokens|] == t;
    assert forall i :: 0 <= i < |tokens| ==> more[i] == tokens[i];
    if ParseTokens(tokens).Some? && ParseToken(t).Some? {
      var r := ParseTokens(tokens).value + [ParseToken(t).value];
      assert forall i :: 0 <= i < |more| ==> ParseToken(more[i]) == Some(r[i]);
      var v := ParseTokens(more).value;
      assert |v| == |r| && forall i :: 0 <= i < |more| ==> v[i] == r[i];
      assert v == r;
    } else if ParseTokens(tokens).None? {
      var i :| 0 <= i < |tokens| && ParseToken(tokens[i]).None?;
      assert ParseToken(more[i]).None?;
    }
  }

  /** A record survives encoding and decoding when a key without a value is
      made only of characters `encodeURIComponent` leaves alone, and the
      record is not the lone empty key without a value (which encodes to the
      empty string). */
  predicate RoundTrips(r: Record)
  {
    && r != [([], None)]
    && forall i :: 0 <= i < |r| && r[i].1 == None ==> AllUnreserved(r[i].0)
  }

  /** The entries that reading the tokens of an encoded record yields. */
  function ReadBack(r: Record): (entries: Record)
    ensures |entries| == |r|
  {
    seq(|r|, i requires 0 <= i < |r| => if r[i].1.None? then (Encode(r[i].0), None) else r[i])
  }

  lemma DecodeEncodedRecord(r: Record)
    requires r != [] && r != [([], None)]
    ensures DecodeParameters(EncodeParameters(r)) == Some(PutAll([], ReadBack(r)))
  {
    var s := EncodeParameters(r);
    SplitEncodedParameters(r);
    var tokens := EncodeEntries(r);
    var entries := ReadBack(r);
    forall i | 0 <= i < |r| ensures ParseToken(tokens[i]) == Some(entries[i]) {
      ParseEncodedEntry(r[i]);
    }
    var parsed := ParseTokens(tokens);
    assert parsed.Some?;
    forall i | 0 <= i < |r| ensures parsed.value[i] == entries[i] {
      assert ParseToken(tokens[i]) == Some(parsed.value[i]);
    }
    assert parsed.value == entries;
  }

  lemma RoundTripSufficient(r: Record)
    requires r != [] && UniqueKeys(r) && RoundTrips(r)
    ensures PutAll([], ReadBack(r)) == r
  {
    assert ReadBack(r) == r;
    PutAllIntoEmptyCopies(r);
  }

  lemma RoundTripNecessary(r: Record)
    requires PutAll([], ReadBack(r)) == r
    ensures forall i :: 0 <= i < |r| && r[i].1 == None ==> AllUnreserved(r[i].0)
  {
    var entries := ReadBack(r);
    PutAllIntoEmpty(entries);
    DedupKeepsLength(Keys(entries));
    DedupOfDistinct(Keys(entries));
    forall i | 0 <= i < |r| && r[i].1 == None ensures AllUnreserved(r[i].0) {
      assert Keys(entries)[i] == Keys(r)[i];
    }
  }

  /** Decoding an encoded record gives it back exactly when its keys are
      unique and it round-trips in the sense above. */
  lemma DecodeEncodeParameters(r: Record)
    ensures DecodeParameters(EncodeParameters(r)) == Some(r) <==> UniqueKeys(r) && RoundTrips(r)
  {
    if r != [] && r != [([], None)] {
      DecodeEncodedRecord(r);
      if UniqueKeys(r) && RoundTrips(r) {
        RoundTripSufficient(r);
      }
      if PutAll([], ReadBack(r)) == r {
        RoundTripNecessary(r);
      }
    }
  }

  /** A component that is one token without `=` reads as a key equal to the
      token itself, not decoded, without a value. */
  lemma ValuelessTokenRead(token: string)
    requires token != [] && ParameterSeparator !in token && KeyValueSeparator !in token
    ensures DecodeParameters(token) == Some([(token, None)])
  {
    var pieces := Split(token, ParameterSeparator);
    assert pieces == [token];
    var entries: Record := [(token, None)];
    assert ParseToken(pieces[0]) == Some(entries[0]);
    var parsed := ParseTokens(pieces);
    assert parsed.Some? && |parsed.value| == 1 && parsed.value[0] == entries[0];
    assert parsed.value == entries;
    assert UniqueKeys(entries);
    PutAllIntoEmptyCopies(entries);
  }

  /** Writing that record back encodes the key, which leaves the token as
      it was only when every character of it is one `encodeURIComponent`
      keeps. */
  lemma ValuelessTokenRewritten(token: string)
    requires token != [] && ParameterSeparator !in token && KeyValueSeparator !in token
    ensures DecodeParameters(token) == Some([(token, None)])
    ensures EncodeParameters([(token, None)]) == Encode(token)
    ensures Encode(token) == token <==> AllUnreserved(token)
  {
    ValuelessTokenRead(token);
    var entries: Record := [(token, None)];
    assert EncodeEntries(entries) == [Encode(token)];
  }

  /** The characters a written parameter string is made of. */
  predicate ParameterText(s: string)
  {
    forall i :: 0 <= i < |s| ==> Unreserved(s[i]) || s[i] == '%' || s[i] == KeyValueSeparator || s[i] == ParameterSeparator
  }

  /** A written parameter string has only unreserved characters, `%`, `=`
      and `&`. */
  lemma EncodedParameterText(r: Record)
    ensures ParameterText(EncodeParameters(r))
  {
    var s := EncodeParameters(r);
    var tokens := EncodeEntries(r);
    forall c | !Unreserved(c) && c != '%' && c != KeyValueSeparator && c != ParameterSeparator
      ensures c !in s
    {
      forall i | 0 <= i < |tokens| ensures c !in tokens[i] {
        EncodedLacks(r[i].0, c);
        if r[i].1.Some? {
          EncodedLacks(r[i].1.value, c);
        }
      }
      JoinOmits(tokens, ParameterSeparator, c);
    }
    forall i | 0 <= i < |s|
      ensures Unreserved(s[i]) || s[i] == '%' || s[i] == KeyValueSeparator || s[i] == ParameterSeparator
    {
      assert s[i] in s;
    }
  }
}
