/**
 * The BeaconRepeater plugin: on every beacon of the host instrumentation
 * library it copies the allow-listed fields of the beacon's payload into a
 * query string and sends that, as an image request, to a second URL.
 *
 * The payload is an ordered sequence of its own (name, value) entries, in
 * the order the host runtime enumerates them.  Host objects are a type
 * parameter `O`, and the host's serializer for them is a function
 * parameter.  The collector's side, reading a query string back into
 * (name, value) pairs, is modelled too (ParseQuery) as the partner of the
 * builder.
 */
module BeaconRepeater {
  import opened Options
  import UriComponent
  import Text

  /** The second collection endpoint. */
  const BeaconUrl: string := "https://www.tiaa.org/public/text/pmt.gif"

  /** The payload fields copied to the repeated beacon; every other field is dropped. */
  const BeaconParamToCopy: set<string> := {
    "rt.start", "rt.tstart", "rt.bstart", "rt.end", "t_resp", "t_page", "t_done", "r",
    "nt_red_cnt", "nt_nav_type", "nt_nav_st", "nt_red_st", "nt_red_end", "nt_fet_st",
    "nt_dns_st", "nt_dns_end", "nt_con_st", "nt_con_end", "nt_req_st", "nt_res_st",
    "nt_res_end", "nt_domloading", "nt_domint", "nt_domcontloaded_st",
    "nt_domcontloaded_end", "nt_domcomp", "nt_load_st", "nt_load_end", "nt_unload_st",
    "nt_unload_end", "nt_spdy", "nt_cinf", "nt_first_paint", "u", "v", "vis.st", "ua.plt",
    "ua.vnd"
  }

  /** Whether a payload field is copied to the repeated beacon. */
  predicate IsCopied(name: string)
  {
    name in BeaconParamToCopy
  }

  /** A payload value; numbers are carried already rendered as text. */
  datatype Value<O> = Str(s: string) | Num(text: string) | Bool(b: bool) | Obj(obj: O) | Null | Undefined

  /** One own property of the payload. */
  type Entry<O> = (string, Value<O>)

  /** The names of a sequence of (name, value) pairs. */
  function Names<V>(entries: seq<(string, V)>): set<string>
  {
    set i | 0 <= i < |entries| :: entries[i].0
  }

  /** No name occurs twice, as in any object's own properties. */
  predicate DistinctNames<V>(entries: seq<(string, V)>)
  {
    forall i, j :: 0 <= i < j < |entries| ==> entries[i].0 != entries[j].0
  }

  /**
   * The string whose encoding is sent for a value: null and undefined
   * become "", objects go through the host serializer, everything else
   * is its string form.
   */
  function Stringify<O>(value: Value<O>, serializeForUrl: O -> string): string
  {
    match value
    case Null => ""
    case Undefined => ""
    case Obj(o) => serializeForUrl(o)
    case Str(s) => s
    case Num(text) => text
    case Bool(b) => if b then "true" else "false"
  }

  /**
   * One name=value pair of the query string, both halves percent-encoded.
   * The pair holds no '&' and exactly one '=', so the framing of the query
   * string cannot be broken by what a name or value contains.
   */
  function GetUriEncodedVar<O>(name: string, value: Value<O>, serializeForUrl: O -> string): (r: string)
    ensures '&' !in r
    ensures value.Null? || value.Undefined? ==> r == UriComponent.Encode(name) + "="
  {
    UriComponent.Encode(name) + "=" + UriComponent.Encode(Stringify(value, serializeForUrl))
  }

  /** A pair holds exactly one '=', so splitting it on '=' gives its two halves. */
  lemma PairHasOneEquals<O>(name: string, value: Value<O>, serializeForUrl: O -> string)
    ensures multiset(GetUriEncodedVar(name, value, serializeForUrl))['='] == 1
  {
    var n := UriComponent.Encode(name);
    var v := UriComponent.Encode(Stringify(value, serializeForUrl));
    assert multiset(n)['='] == 0 && multiset(v)['='] == 0;
    assert GetUriEncodedVar(name, value, serializeForUrl) == n + "=" + v;
  }

  /** The value handed to GetUriEncodedVar: the callback turns undefined into "" first. */
  function CallbackArgument<O>(value: Value<O>): Value<O>
  {
    if value.Undefined? then Str("") else value
  }

  /** The entries whose names are on the allow-list, in payload order. */
  function Selected<O>(data: seq<Entry<O>>): seq<Entry<O>>
  {
    if data == [] then []
    else (if IsCopied(data[0].0) then [data[0]] else []) + Selected(data[1..])
  }

  /** The encoded pairs of a sequence of entries, as the callback pushes them. */
  function EncodeEntries<O>(entries: seq<Entry<O>>, serializeForUrl: O -> string): (pieces: seq<string>)
    ensures |pieces| == |entries|
    ensures forall i :: 0 <= i < |pieces| ==> '&' !in pieces[i]
  {
    if entries == [] then []
    else [GetUriEncodedVar(entries[0].0, CallbackArgument(entries[0].1), serializeForUrl)]
         + EncodeEntries(entries[1..], serializeForUrl)
  }

  lemma {:induction false} EncodedPieceHasOneEquals<O>(entries: seq<Entry<O>>, serializeForUrl: O -> string, p: string)
    requires p in EncodeEntries(entries, serializeForUrl)
    ensures multiset(p)['='] == 1
  {
    if p == GetUriEncodedVar(entries[0].0, CallbackArgument(entries[0].1), serializeForUrl) {
      PairHasOneEquals(entries[0].0, CallbackArgument(entries[0].1), serializeForUrl);
    } else {
      EncodedPieceHasOneEquals(entries[1..], serializeForUrl, p);
    }
  }

  /** The query string the callback builds for a payload. */
  function QueryString<O>(data: seq<Entry<O>>, serializeForUrl: O -> string): string
  {
    Text.Join(EncodeEntries(Selected(data), serializeForUrl), '&')
  }

  /** What a collector should read back: each forwarded name with its value's string form. */
  function Forwarded<O>(data: seq<Entry<O>>, serializeForUrl: O -> string): seq<(string, string)>
  {
    StringifyEntries(Selected(data), serializeForUrl)
  }

  /** Each entry's name with its value's string form. */
  function StringifyEntries<O>(entries: seq<Entry<O>>, serializeForUrl: O -> string): (pairs: seq<(string, string)>)
    ensures |pairs| == |entries|
    ensures forall j :: 0 <= j < |pairs| ==> pairs[j] == (entries[j].0, Stringify(entries[j].1, serializeForUrl))
  {
    if entries == [] then []
    else [(entries[0].0, Stringify(entries[0].1, serializeForUrl))] + StringifyEntries(entries[1..], serializeForUrl)
  }

  /**
   * The deferred body of onBeacon: filter and encode the payload's
   * entries in order, join them with '&', and, when an image object can
   * be created, request BeaconUrl?query.  When it cannot, nothing is sent.
   */
  method OnBeacon<O>(data: seq<Entry<O>>, serializeForUrl: O -> string, imageAvailable: bool)
    returns (request: Option<string>)
    ensures imageAvailable ==> request == Some(BeaconUrl + "?" + QueryString(data, serializeForUrl))
    ensures !imageAvailable ==> request == None
  {
    var url: seq<string> := [];
    var i := 0;
    while i < |data|
      invariant 0 <= i <= |data|
      invariant url == EncodeEntries(Selected(data[..i]), serializeForUrl)
    {
      var (name, value) := data[i];
      EncodePrefixStep(data, i, serializeForUrl);
      if IsCopied(name) {
        url := url + [GetUriEncodedVar(name, CallbackArgument(value), serializeForUrl)];
      }
      i := i + 1;
    }
    assert data[..i] == data;
    var paramsJoined := Text.Join(url, '&');
    if !imageAvailable {
      return None;
    }
    var fullUrl := BeaconUrl + "?" + paramsJoined;
    request := Some(fullUrl);
  }

  /** One more payload entry adds its encoded pair exactly when its name is copied. */
  lemma EncodePrefixStep<O>(data: seq<Entry<O>>, i: nat, serializeForUrl: O -> string)
    requires i < |data|
    ensures EncodeEntries(Selected(data[..i + 1]), serializeForUrl)
         == EncodeEntries(Selected(data[..i]), serializeForUrl)
          + (if IsCopied(data[i].0) then [GetUriEncodedVar(data[i].0, CallbackArgument(data[i].1), serializeForUrl)] else [])
  {
    var kept := if IsCopied(data[i].0) then [data[i]] else [];
    var before := Selected(data[..i]);
    assert data[..i + 1] == data[..i] + [data[i]];
    SelectedSnoc(data[..i], data[i]);
    assert Selected(data[..i + 1]) == before + kept;
    EncodeEntriesAppend(before, kept, serializeForUrl);
    if IsCopied(data[i].0) {
      assert kept[1..] == [];
    }
  }

  lemma {:induction false} SelectedSnoc<O>(data: seq<Entry<O>>, e: Entry<O>)
    ensures Selected(data + [e]) == Selected(data) + (if IsCopied(e.0) then [e] else [])
  {
    if data != [] {
      assert (data + [e])[1..] == data[1..] + [e];
      SelectedSnoc(data[1..], e);
    } else {
      assert (data + [e])[1..] == [];
    }
  }

  lemma {:induction false} EncodeEntriesAppend<O>(a: seq<Entry<O>>, b: seq<Entry<O>>, serializeForUrl: O -> string)
    ensures EncodeEntries(a + b, serializeForUrl) == EncodeEntries(a, serializeForUrl) + EncodeEntries(b, serializeForUrl)
  {
    if a != [] {
      assert (a + b)[1..] == a[1..] + b;
      EncodeEntriesAppend(a[1..], b, serializeForUrl);
    } else {
      assert a + b == b;
    }
  }

  // ---------------------------------------------------------------------
  // Reading a repeated beacon back
  // ---------------------------------------------------------------------

  /** A name=value piece: exactly one '=', both halves valid percent-encodings. */
  function ParsePair(piece: string): Option<(string, string)>
  {
    var parts := Text.Split(piece, '=');
    if |parts| != 2 then None
    else
      match (UriComponent.Decode(parts[0]), UriComponent.Decode(parts[1]))
      case (Some(name), Some(value)) => Some((name, value))
      case _ => None
  }

  function ParsePieces(pieces: seq<string>): Option<seq<(string, string)>>
  {
    if pieces == [] then Some([])
    else
      match (ParsePair(pieces[0]), ParsePieces(pieces[1..]))
      case (Some(p), Some(ps)) => Some([p] + ps)
      case _ => None
  }

  /** The pairs of a query string; the empty query string has none. */
  function ParseQuery(query: string): Option<seq<(string, string)>>
  {
    if query == [] then Some([]) else ParsePieces(Text.Split(query, '&'))
  }

  /** A single pair decodes to the name and the value's string form it was built from. */
  lemma PairRoundTrip<O>(name: string, value: Value<O>, serializeForUrl: O -> string)
    ensures ParsePair(GetUriEncodedVar(name, value, serializeForUrl)) == Some((name, Stringify(value, serializeForUrl)))
  {
    var n := UriComponent.Encode(name);
    var v := UriComponent.Encode(Stringify(value, serializeForUrl));
    assert GetUriEncodedVar(name, value, serializeForUrl) == n + ['='] + v;
    Text.SplitAtFirstSeparator(n, '=', v);
    Text.SplitWithoutSeparator(v, '=');
    UriComponent.DecodeEncode(name);
    UriComponent.DecodeEncode(Stringify(value, serializeForUrl));
  }

  lemma {:induction false} PiecesRoundTrip<O>(sel: seq<Entry<O>>, serializeForUrl: O -> string)
    ensures ParsePieces(EncodeEntries(sel, serializeForUrl)) == Some(StringifyEntries(sel, serializeForUrl))
  {
    if sel != [] {
      var pieces := EncodeEntries(sel, serializeForUrl);
      assert pieces[1..] == EncodeEntries(sel[1..], serializeForUrl);
      PairRoundTrip(sel[0].0, CallbackArgument(sel[0].1), serializeForUrl);
      PiecesRoundTrip(sel[1..], serializeForUrl);
    }
  }

  /**
   * Decoding the query string gives back exactly the allow-listed entries
   * of the payload, in payload order, each with its value's string form
   * (null and undefined as "", objects serialized).
   */
  lemma QueryRoundTrip<O>(data: seq<Entry<O>>, serializeForUrl: O -> string)
    ensures ParseQuery(QueryString(data, serializeForUrl)) == Some(Forwarded(data, serializeForUrl))
  {
    var sel := Selected(data);
    var pieces := EncodeEntries(sel, serializeForUrl);
    PiecesRoundTrip(sel, serializeForUrl);
    if sel != [] {
      Text.SplitJoin(pieces, '&');
      assert '=' in pieces[0];
      assert Text.Join(pieces, '&') != [];
    }
  }

  // ---------------------------------------------------------------------
  // Which fields are forwarded, and in what order
  // ---------------------------------------------------------------------

  lemma NamesCons<V>(entries: seq<(string, V)>)
    requires entries != []
    ensures Names(entries) == {entries[0].0} + Names(entries[1..])
  {
    var rest := entries[1..];
    forall n | n in Names(entries) ensures n in {entries[0].0} + Names(rest) {
      var i :| 0 <= i < |entries| && entries[i].0 == n;
      if i > 0 {
        assert rest[i - 1].0 == n;
      }
    }
    forall n | n in Names(rest) ensures n in Names(entries) {
      var i :| 0 <= i < |rest| && rest[i].0 == n;
      assert entries[i + 1].0 == n;
    }
  }

  /** The selected entries are exactly those whose names are on the allow-list. */
  lemma {:induction false} SelectedNames<O>(data: seq<Entry<O>>)
    ensures Names(Selected(data)) == Names(data) * BeaconParamToCopy
  {
    if data != [] {
      SelectedNames(data[1..]);
      NamesCons(data);
      var kept := if IsCopied(data[0].0) then [data[0]] else [];
      var sel := Selected(data);
      assert sel == kept + Selected(data[1..]);
      if IsCopied(data[0].0) {
        NamesCons(sel);
        assert sel[1..] == Selected(data[1..]);
      } else {
        assert sel == Selected(data[1..]);
      }
    }
  }

  /**
   * A name appears in the decoded query string if and only if it is the
   * name of one of the payload's own entries and is on the allow-list.
   */
  lemma ForwardedNames<O>(data: seq<Entry<O>>, serializeForUrl: O -> string)
    ensures ParseQuery(QueryString(data, serializeForUrl)).Some?
    ensures Names(ParseQuery(QueryString(data, serializeForUrl)).value) == Names(data) * BeaconParamToCopy
  {
    QueryRoundTrip(data, serializeForUrl);
    SelectedNames(data);
    StringifyEntriesNames(Selected(data), serializeForUrl);
  }

  lemma StringifyEntriesNames<O>(entries: seq<Entry<O>>, serializeForUrl: O -> string)
    ensures Names(StringifyEntries(entries, serializeForUrl)) == Names(entries)
  {
    var pairs := StringifyEntries(entries, serializeForUrl);
    forall n | n in Names(pairs) ensures n in Names(entries) {
      var j :| 0 <= j < |pairs| && pairs[j].0 == n;
      assert entries[j].0 == n;
    }
    forall n | n in Names(entries) ensures n in Names(pairs) {
      var j :| 0 <= j < |entries| && entries[j].0 == n;
      assert pairs[j].0 == n;
    }
  }

  /** The indices, from `from` on, of the payload entries that are copied, in increasing order. */
  function KeptIndices<O>(data: seq<Entry<O>>, from: nat): seq<nat>
    requires from <= |data|
    decreases |data| - from
  {
    if from == |data| then []
    else (if IsCopied(data[from].0) then [from] else []) + KeptIndices(data, from + 1)
  }

  /** Every kept index lies in `[from, |data|)`. */
  lemma {:induction false} KeptIndicesInRange<O>(data: seq<Entry<O>>, from: nat)
    requires from <= |data|
    ensures forall j :: 0 <= j < |KeptIndices(data, from)| ==> from <= KeptIndices(data, from)[j] < |data|
    decreases |data| - from
  {
    if from < |data| {
      KeptIndicesInRange(data, from + 1);
    }
  }

  /** Each element is smaller than every later one. */
  predicate StrictlyIncreasing(s: seq<nat>)
  {
    forall j, k :: 0 <= j < k < |s| ==> s[j] < s[k]
  }

  /** The kept indices are strictly increasing. */
  lemma {:induction false} KeptIndicesIncreasing<O>(data: seq<Entry<O>>, from: nat)
    requires from <= |data|
    ensures StrictlyIncreasing(KeptIndices(data, from))
    decreases |data| - from
  {
    if from < |data| {
      KeptIndicesIncreasing(data, from + 1);
      KeptIndicesInRange(data, from + 1);
      var rest := KeptIndices(data, from + 1);
      var idx := KeptIndices(data, from);
      if IsCopied(data[from].0) {
        assert idx == [from] + rest;
        forall j, k | 0 <= j < k < |idx| ensures idx[j] < idx[k] {
          assert idx[k] == rest[k - 1];
          if j > 0 {
            assert idx[j] == rest[j - 1];
          }
        }
      } else {
        assert idx == rest;
      }
    }
  }

  /** An index from `from` on is kept exactly when its name is on the allow-list. */
  lemma {:induction false} KeptIndicesMembership<O>(data: seq<Entry<O>>, from: nat)
    requires from <= |data|
    ensures var idx := KeptIndices(data, from);
      forall i :: from <= i < |data| ==> (i in idx <==> IsCopied(data[i].0))
    decreases |data| - from
  {
    if from < |data| {
      KeptIndicesMembership(data, from + 1);
      KeptIndicesInRange(data, from + 1);
      var rest := KeptIndices(data, from + 1);
      assert from !in rest;
      if IsCopied(data[from].0) {
        assert KeptIndices(data, from) == [from] + rest;
      } else {
        assert KeptIndices(data, from) == rest;
      }
    }
  }

  /** The j-th selected entry is the entry at the j-th kept index. */
  lemma {:induction false} KeptIndicesSelect<O>(data: seq<Entry<O>>, from: nat)
    requires from <= |data|
    ensures var idx := KeptIndices(data, from);
      && |idx| == |Selected(data[from..])|
      && (forall j :: 0 <= j < |idx| ==> idx[j] < |data| && Selected(data[from..])[j] == data[idx[j]])
    decreases |data| - from
  {
    KeptIndicesInRange(data, from);
    if from < |data| {
      KeptIndicesSelect(data, from + 1);
      var tail := data[from..];
      assert tail[0] == data[from] && tail[1..] == data[from + 1..];
      var rest := KeptIndices(data, from + 1);
      var later := Selected(data[from + 1..]);
      if IsCopied(data[from].0) {
        assert KeptIndices(data, from) == [from] + rest;
        assert Selected(tail) == [data[from]] + later;
      } else {
        assert KeptIndices(data, from) == rest;
        assert Selected(tail) == later;
      }
    }
  }

  /**
   * Filtering only drops entries and never reorders them: the j-th
   * forwarded pair comes from the j-th copied payload entry, the copied
   * entries are taken in increasing payload position, and every entry on
   * the allow-list is taken.
   */
  lemma ForwardedInPayloadOrder<O>(data: seq<Entry<O>>, serializeForUrl: O -> string)
    ensures var idx := KeptIndices(data, 0);
            var fw := Forwarded(data, serializeForUrl);
      && |fw| == |idx|
      && (forall j :: 0 <= j < |idx| ==>
            idx[j] < |data| && fw[j] == (data[idx[j]].0, Stringify(data[idx[j]].1, serializeForUrl)))
      && StrictlyIncreasing(idx)
      && (forall i :: 0 <= i < |data| ==> (i in idx <==> data[i].0 in BeaconParamToCopy))
  {
    KeptIndicesSelect(data, 0);
    KeptIndicesIncreasing(data, 0);
    KeptIndicesMembership(data, 0);
    assert data[0..] == data;
  }

  // ---------------------------------------------------------------------
  // Framing of the query string
  // ---------------------------------------------------------------------

  /** The query string is empty exactly when no payload name is on the allow-list. */
  lemma EmptyQueryIffNothingCopied<O>(data: seq<Entry<O>>, serializeForUrl: O -> string)
    ensures QueryString(data, serializeForUrl) == [] <==> Names(data) * BeaconParamToCopy == {}
    ensures Names(data) * BeaconParamToCopy == {} ==> BeaconUrl + "?" + QueryString(data, serializeForUrl) == BeaconUrl + "?"
  {
    SelectedNames(data);
    var sel := Selected(data);
    var pieces := EncodeEntries(sel, serializeForUrl);
    if sel != [] {
      assert sel[0].0 in Names(sel);
      assert '=' in pieces[0];
    }
  }

  lemma {:induction false} DistinctNamesCount<V>(entries: seq<(string, V)>)
    requires DistinctNames(entries)
    ensures |Names(entries)| == |entries|
  {
    if entries != [] {
      NamesCons(entries);
      DistinctNamesCount(entries[1..]);
      assert entries[0].0 !in Names(entries[1..]) by {
        forall i | 0 <= i < |entries[1..]| ensures entries[1..][i].0 != entries[0].0 {
          assert entries[1..][i] == entries[i + 1];
        }
      }
    }
  }

  /**
   * For a payload with distinct names, splitting a non-empty query string
   * on '&' gives one piece per copied name, and each piece holds exactly
   * one '='.
   */
  lemma OnePiecePerCopiedName<O>(data: seq<Entry<O>>, serializeForUrl: O -> string)
    requires DistinctNames(data)
    ensures var query := QueryString(data, serializeForUrl);
      query != [] ==>
        var pieces := Text.Split(query, '&');
        && |pieces| == |Names(data) * BeaconParamToCopy|
        && |pieces| == multiset(query)['&'] + 1
        && forall p :: p in pieces ==> multiset(p)['='] == 1
  {
    var sel := Selected(data);
    var pieces := EncodeEntries(sel, serializeForUrl);
    SelectedNames(data);
    KeptIndicesSelect(data, 0);
    KeptIndicesIncreasing(data, 0);
    KeptIndicesMembership(data, 0);
    assert data[0..] == data;
    var idx := KeptIndices(data, 0);
    assert DistinctNames(sel) by {
      forall j, k | 0 <= j < k < |sel| ensures sel[j].0 != sel[k].0 {
        assert sel[j] == data[idx[j]] && sel[k] == data[idx[k]];
      }
    }
    DistinctNamesCount(sel);
    Text.SplitCount(QueryString(data, serializeForUrl), '&');
    if sel != [] {
      Text.SplitJoin(pieces, '&');
      forall p | p in pieces ensures multiset(p)['='] == 1 {
        EncodedPieceHasOneEquals(sel, serializeForUrl, p);
      }
    }
  }

  /** A pair whose name and value are made of unreserved characters is written as it stands. */
  lemma UnreservedPair<O>(name: string, value: Value<O>, serializeForUrl: O -> string)
    requires forall i :: 0 <= i < |name| ==> UriComponent.IsUnreserved(name[i])
    requires var s := Stringify(value, serializeForUrl); forall i :: 0 <= i < |s| ==> UriComponent.IsUnreserved(s[i])
    ensures GetUriEncodedVar(name, value, serializeForUrl) == name + "=" + Stringify(value, serializeForUrl)
  {
    UriComponent.EncodeIsIdentityIffUnreserved(name);
    UriComponent.EncodeIsIdentityIffUnreserved(Stringify(value, serializeForUrl));
  }

  /** An example: of the entries rt.start, foo and t_done only foo is dropped, and order is kept. */
  lemma ExampleSelected()
    ensures Selected<int>([("rt.start", Str("100")), ("foo", Str("bar")), ("t_done", Num("250"))])
         == [("rt.start", Str("100")), ("t_done", Num("250"))]
  {
    var d0: Entry<int> := ("rt.start", Str("100"));
    var d1: Entry<int> := ("foo", Str("bar"));
    var d2: Entry<int> := ("t_done", Num("250"));
    var data := [d0, d1, d2];
    assert IsCopied(d0.0) && !IsCopied(d1.0) && IsCopied(d2.0);
    assert data[1..] == [d1, d2] && data[1..][1..] == [d2] && data[1..][1..][1..] == [];
  }

  /**
   * Two selected entries with unreserved names and values give
   * `name=value&name=value`.
   */
  lemma TwoUnreservedPairs<O>(a: Entry<O>, b: Entry<O>, serializeForUrl: O -> string)
    requires forall i :: 0 <= i < |a.0| ==> UriComponent.IsUnreserved(a.0[i])
    requires forall i :: 0 <= i < |b.0| ==> UriComponent.IsUnreserved(b.0[i])
    requires var v := Stringify(a.1, serializeForUrl); forall i :: 0 <= i < |v| ==> UriComponent.IsUnreserved(v[i])
    requires var v := Stringify(b.1, serializeForUrl); forall i :: 0 <= i < |v| ==> UriComponent.IsUnreserved(v[i])
    ensures Text.Join(EncodeEntries([a, b], serializeForUrl), '&')
         == (a.0 + "=" + Stringify(a.1, serializeForUrl)) + "&" + (b.0 + "=" + Stringify(b.1, serializeForUrl))
  {
    EncodeTwoEntries(a, b, serializeForUrl);
    assert Stringify(CallbackArgument(a.1), serializeForUrl) == Stringify(a.1, serializeForUrl);
    assert Stringify(CallbackArgument(b.1), serializeForUrl) == Stringify(b.1, serializeForUrl);
    var pa := GetUriEncodedVar(a.0, CallbackArgument(a.1), serializeForUrl);
    var pb := GetUriEncodedVar(b.0, CallbackArgument(b.1), serializeForUrl);
    Text.JoinTwo(pa, pb, '&');
    UnreservedPair(a.0, CallbackArgument(a.1), serializeForUrl);
    UnreservedPair(b.0, CallbackArgument(b.1), serializeForUrl);
  }

  /** Two entries are encoded as their two pairs. */
  lemma EncodeTwoEntries<O>(a: Entry<O>, b: Entry<O>, serializeForUrl: O -> string)
    ensures EncodeEntries([a, b], serializeForUrl)
         == [GetUriEncodedVar(a.0, CallbackArgument(a.1), serializeForUrl),
             GetUriEncodedVar(b.0, CallbackArgument(b.1), serializeForUrl)]
  {
    assert [a, b][1..] == [b] && [b][1..] == [];
  }

  /** The example payload of `ExampleSelected`, and the query string it gives. */
  const ExamplePayload: seq<Entry<int>> := [("rt.start", Str("100")), ("foo", Str("bar")), ("t_done", Num("250"))]
  const ExampleQuery: string := "rt.start=100&t_done=250"

  /** The same example, written out: the query string is rt.start=100&t_done=250. */
  lemma ExampleQueryString(serializeForUrl: int -> string)
    ensures QueryString(ExamplePayload, serializeForUrl) == ExampleQuery
  {
    var a: Entry<int> := ("rt.start", Str("100"));
    var b: Entry<int> := ("t_done", Num("250"));
    ExampleSelected();
    assert Selected(ExamplePayload) == [a, b];
    assert Stringify(a.1, serializeForUrl) == "100" && Stringify(b.1, serializeForUrl) == "250";
    assert forall i :: 0 <= i < |a.0| ==> UriComponent.IsUnreserved(a.0[i]);
    assert forall i :: 0 <= i < |b.0| ==> UriComponent.IsUnreserved(b.0[i]);
    TwoUnreservedPairs(a, b, serializeForUrl);
    assert QueryString(ExamplePayload, serializeForUrl) == Text.Join(EncodeEntries([a, b], serializeForUrl), '&');
    ExampleQueryParts();
  }

  /** The example's query string is its two pairs joined by '&'. */
  lemma ExampleQueryParts()
    ensures ("rt.start" + "=" + "100") + "&" + ("t_done" + "=" + "250") == ExampleQuery
  {
  }

  /** The empty payload gives the empty query string and the bare URL. */
  lemma EmptyPayload<O>(serializeForUrl: O -> string)
    ensures QueryString([], serializeForUrl) == []
    ensures BeaconUrl + "?" + QueryString([], serializeForUrl) == "https://www.tiaa.org/public/text/pmt.gif?"
  {
  }

  // ---------------------------------------------------------------------
  // Registration with the host
  // ---------------------------------------------------------------------

  /** The host's event bus (BOOMR.subscribe), reduced to the names of the events subscribed to. */
  class EventBus {
    var subscriptions: seq<string>

    constructor ()
      ensures subscriptions == []
    {
      subscriptions := [];
    }

    method Subscribe(eventName: string)
      modifies this
      ensures subscriptions == old(subscriptions) + [eventName]
    {
      subscriptions := subscriptions + [eventName];
    }
  }

  /**
   * The plugin object together with its private state: the one-bit
   * initialisation flag, which moves from false to true once and never back.
   */
  class Plugin {
    const bus: EventBus
    var initialized: bool

    constructor (bus: EventBus)
      ensures this.bus == bus && !initialized
    {
      this.bus := bus;
      initialized := false;
    }

    /**
     * init: subscribes the beacon handler on the first call only, and
     * returns the plugin itself for chaining.
     */
    method Init() returns (self: Plugin)
      modifies this, bus
      ensures self == this
      ensures initialized
      ensures bus.subscriptions
           == if old(initialized) then old(bus.subscriptions) else old(bus.subscriptions) + ["beacon"]
    {
      if !initialized {
        bus.Subscribe("beacon");
        initialized := true;
      }
      self := this;
    }

    /** is_complete: the plugin has no asynchronous set-up to wait for. */
    function IsComplete(): (complete: bool)
      ensures complete
    {
      true
    }
  }

  /**
   * Calling init any positive number of times on a new plugin subscribes
   * to "beacon" exactly once, and every call returns the plugin.
   */
  method InitRepeatedly(bus: EventBus, calls: nat) returns (plugin: Plugin)
    requires calls >= 1
    modifies bus
    ensures fresh(plugin) && plugin.bus == bus && plugin.initialized
    ensures bus.subscriptions == old(bus.subscriptions) + ["beacon"]
  {
    plugin := new Plugin(bus);
    var n := 0;
    while n < calls
      invariant n <= calls
      invariant fresh(plugin) && plugin.bus == bus
      invariant plugin.initialized <==> n > 0
      invariant bus.subscriptions == old(bus.subscriptions) + (if n > 0 then ["beacon"] else [])
    {
      var self := plugin.Init();
      assert self == plugin;
      n := n + 1;
    }
  }
}
