/**
 * Client address resolution: the first acceptable forwarding header, cut at
 * its first comma, else the peer address; no request at all gives `null`.
 */
module IpUtils {
  import opened Common

  /** The headers tried, in this order. */
  const IpHeaderCandidates: seq<string> := ["X-Forwarded-For", "Proxy-Client-IP", "HTTP_X_FORWARDED_FOR"]

  /** The indexing exception raised by `split(",")[0]` on an all-comma value. */
  datatype IndexOutOfBounds = IndexOutOfBounds

  /** The current servlet request: a header lookup (`None` for a missing header) and the peer address. */
  datatype Request = Request(header: string -> Option<string>, remoteAddr: string)

  /** Characters of `"unknown"` compared as `equalsIgnoreCase` does: ASCII case, and the Kelvin sign for `k`. */
  predicate SameIgnoringCase(lower: char, c: char)
    requires 'a' <= lower <= 'z'
  {
    c == lower || c as int == lower as int - 32 || (lower == 'k' && c as int == 0x212A)
  }

  predicate IsUnknown(v: string)
  {
    var target := "unknown";
    |v| == |target| && forall i :: 0 <= i < |v| ==> SameIgnoringCase(target[i], v[i])
  }

  /** A header value is used unless it is missing, empty or "unknown" in any case. */
  predicate Acceptable(v: Option<string>)
  {
    v.Some? && |v.value| != 0 && !IsUnknown(v.value)
  }

  /** The index of the first name from `from` on whose header is acceptable. */
  function FirstAcceptable(header: string -> Option<string>, names: seq<string>, from: nat): (r: Option<nat>)
    requires from <= |names|
    ensures r.Some? ==>
      (from <= r.value < |names| && Acceptable(header(names[r.value]))
       && forall j :: from <= j < r.value ==> !Acceptable(header(names[j])))
    ensures r.None? ==> forall j :: from <= j < |names| ==> !Acceptable(header(names[j]))
    decreases |names| - from
  {
    if from == |names| then None
    else if Acceptable(header(names[from])) then Some(from)
    else FirstAcceptable(header, names, from + 1)
  }

  /** The pieces of `s` between commas, empty pieces included. */
  function Pieces(s: string): (p: seq<string>)
    ensures |p| >= 1
  {
    if s == [] then [""]
    else
      var rest := Pieces(s[1..]);
      if s[0] == ',' then [""] + rest else [[s[0]] + rest[0]] + rest[1..]
  }

  /** `p` with its trailing empty strings removed. */
  function DropTrailingEmpty(p: seq<string>): seq<string>
  {
    if p != [] && p[|p| - 1] == "" then DropTrailingEmpty(p[..|p| - 1]) else p
  }

  /** Java's `s.split(",")`: `[s]` when there is no comma, else the pieces without trailing empties. */
  function Split(s: string): seq<string>
  {
    if ',' !in s then [s] else DropTrailingEmpty(Pieces(s))
  }

  /** `s.split(",")[0]`. */
  function FirstField(s: string): Result<string, IndexOutOfBounds>
  {
    var parts := Split(s);
    if |parts| == 0 then Failure(IndexOutOfBounds) else Success(parts[0])
  }

  /** The length of the text before the first comma (all of `s` if there is none). */
  function CommaIndex(s: string): (k: nat)
    ensures k <= |s| && ',' !in s[..k] && (k < |s| ==> s[k] == ',')
  {
    if s == [] || s[0] == ',' then 0 else 1 + CommaIndex(s[1..])
  }

  /** `getClientIpAddressIfServletRequestExist`. */
  function ClientIpAddress(request: Option<Request>): Result<Option<string>, IndexOutOfBounds>
  {
    match request
    case None => Success(None)
    case Some(req) =>
      match FirstAcceptable(req.header, IpHeaderCandidates, 0)
      case None => Success(Some(req.remoteAddr))
      case Some(i) =>
        MapSome(FirstField(req.header(IpHeaderCandidates[i]).value))
  }

  /** The search of `getClientIpAddressIfServletRequestExist`, as its loop over the candidates. */
  method GetClientIpAddress(request: Option<Request>) returns (r: Result<Option<string>, IndexOutOfBounds>)
    ensures r == ClientIpAddress(request)
  {
    if request.None? {
      return Success(None);
    }
    var req := request.value;
    for i := 0 to |IpHeaderCandidates|
      invariant forall j :: 0 <= j < i ==> !Acceptable(req.header(IpHeaderCandidates[j]))
    {
      var ipHeader := req.header(IpHeaderCandidates[i]);
      if Acceptable(ipHeader) {
        return MapSome(FirstField(ipHeader.value));
      }
    }
    return Success(Some(req.remoteAddr));
  }

  /** The first piece is the text before the first comma. */
  lemma {:induction false} FirstPiece(s: string)
    ensures Pieces(s)[0] == s[..CommaIndex(s)]
  {
    if s != [] && s[0] != ',' {
      FirstPiece(s[1..]);
    }
  }

  /** Every piece is empty exactly when `s` holds nothing but commas. */
  lemma {:induction false} PiecesAllEmpty(s: string)
    ensures (forall i :: 0 <= i < |Pieces(s)| ==> Pieces(s)[i] == "") <==> (forall k :: 0 <= k < |s| ==> s[k] == ',')
  {
    if s != [] {
      PiecesAllEmpty(s[1..]);
      var rest := Pieces(s[1..]);
      if s[0] == ',' {
        assert Pieces(s) == [""] + rest;
        if forall k :: 0 <= k < |s| ==> s[k] == ',' {
          assert forall k :: 0 <= k < |s[1..]| ==> s[1..][k] == s[k + 1];
        } else {
          var k :| 0 <= k < |s| && s[k] != ',';
          assert s[1..][k - 1] != ',';
          var i :| 0 <= i < |rest| && rest[i] != "";
          assert Pieces(s)[i + 1] != "";
        }
      } else {
        assert Pieces(s)[0] != "";
      }
    }
  }

  /** Dropping trailing empties leaves nothing exactly when all were empty, and keeps the first otherwise. */
  lemma {:induction false} DropTrailingEmptyFirst(p: seq<string>)
    ensures DropTrailingEmpty(p) == [] <==> forall i :: 0 <= i < |p| ==> p[i] == ""
    ensures DropTrailingEmpty(p) != [] ==> DropTrailingEmpty(p)[0] == p[0]
    decreases |p|
  {
    if p != [] && p[|p| - 1] == "" {
      DropTrailingEmptyFirst(p[..|p| - 1]);
      assert forall i :: 0 <= i < |p| - 1 ==> p[..|p| - 1][i] == p[i];
    }
  }

  /**
   * `split(",")[0]` on a non-empty value is the text before the first comma,
   * untrimmed; a value made only of commas throws instead.
   */
  lemma FirstFieldIsPrefix(s: string)
    requires |s| > 0
    ensures FirstField(s).Failure? <==> forall k :: 0 <= k < |s| ==> s[k] == ','
    ensures FirstField(s).Success? ==> FirstField(s).value == s[..CommaIndex(s)]
  {
    if ',' in s {
      PiecesAllEmpty(s);
      DropTrailingEmptyFirst(Pieces(s));
      FirstPiece(s);
    } else {
      assert s[..CommaIndex(s)] == s;
    }
  }

  /** Without a current request the result is `null`. */
  lemma NoRequestGivesNull()
    ensures ClientIpAddress(None) == Success(None)
  {
  }

  /**
   * With a request, the first acceptable candidate header supplies the address
   * (its text before the first comma); if none is acceptable, the peer address.
   */
  lemma HeaderPrecedence(req: Request)
    ensures var xff, pci, hxff := req.header("X-Forwarded-For"), req.header("Proxy-Client-IP"), req.header("HTTP_X_FORWARDED_FOR");
      ClientIpAddress(Some(req)) ==
        if Acceptable(xff) then MapSome(FirstField(xff.value))
        else if Acceptable(pci) then MapSome(FirstField(pci.value))
        else if Acceptable(hxff) then MapSome(FirstField(hxff.value))
        else Success(Some(req.remoteAddr))
  {
    var r := FirstAcceptable(req.header, IpHeaderCandidates, 0);
    assert IpHeaderCandidates[0] == "X-Forwarded-For";
    assert IpHeaderCandidates[1] == "Proxy-Client-IP";
    assert IpHeaderCandidates[2] == "HTTP_X_FORWARDED_FOR";
  }

  /** A field found in a header, as the address. */
  function MapSome(r: Result<string, IndexOutOfBounds>): Result<Option<string>, IndexOutOfBounds>
  {
    match r
    case Success(v) => Success(Some(v))
    case Failure(e) => Failure(e)
  }
}
