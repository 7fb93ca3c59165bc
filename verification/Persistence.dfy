/** Connection persistence: what a response head announces and what a client makes of it. */
module Persistence {
  import opened Bytes
  import opened ServerConnection
  import P = Pipelining

  type Item = (string, string)

  // ---- text ----

  /** Python's whitespace within Latin-1. */
  predicate IsSpace(c: char) {
    var n := c as int;
    9 <= n <= 13 || 28 <= n <= 32 || n == 0x85 || n == 0xA0
  }

  function LowerChar(c: char): char {
    if 'A' <= c <= 'Z' || (0xC0 <= c as int <= 0xDE && c as int != 0xD7) then (c as int + 32) as char else c
  }

  function LowerText(s: string): (r: string)
    ensures |r| == |s|
  {
    seq(|s|, i requires 0 <= i < |s| => LowerChar(s[i]))
  }

  function Strip(s: string): string {
    if s != "" && IsSpace(s[0]) then Strip(s[1..])
    else if s != "" && IsSpace(s[|s| - 1]) then Strip(s[..|s| - 1])
    else s
  }

  function Split(s: string): (r: seq<string>)
    ensures |r| >= 1
  {
    if s == "" then [""] else WithFirst(s[0], Split(s[1..]))
  }

  /** The pieces of a text from its first character and the pieces of the others. */
  function WithFirst(c: char, pieces: seq<string>): (r: seq<string>)
    requires pieces != []
    ensures r != []
  {
    if c == ',' then [""] + pieces else [[c] + pieces[0]] + pieces[1..]
  }

  /** The lowercase, stripped, non-empty pieces. */
  function PieceTokens(pieces: seq<string>): set<string> {
    if pieces == [] then {}
    else
      var token := LowerText(Strip(pieces[0]));
      (if token == "" then {} else {token}) + PieceTokens(pieces[1..])
  }

  function Tokens(value: string): set<string> {
    PieceTokens(Split(value))
  }

  method ParseConnectionTokens(value: string) returns (tokens: set<string>)
    ensures tokens == Tokens(value)
  {
    tokens := {};
    var pieces := Split(value);
    for i := 0 to |pieces|
      invariant tokens + PieceTokens(pieces[i..]) == Tokens(value)
    {
      var token := LowerText(Strip(pieces[i]));
      assert PieceTokens(pieces[i..]) == (if token == "" then {} else {token}) + PieceTokens(pieces[i + 1..]);
      if token != "" { tokens := tokens + {token}; }
    }
  }

  // ---- Connection headers ----

  predicate IsConnection(name: string) {
    LowerText(name) == "connection"
  }

  /** The union over the Connection headers, whatever their order. */
  function ConnectionTokens(items: seq<Item>): set<string> {
    if items == [] then {}
    else (if IsConnection(items[0].0) then Tokens(items[0].1) else {}) + ConnectionTokens(items[1..])
  }

  /** List the token in the first Connection header, or in a new one. */
  function WithToken(items: seq<Item>, token: string): seq<Item> {
    if items == [] then [("Connection", token)]
    else if IsConnection(items[0].0) then
      [if token in Tokens(items[0].1) then items[0] else (items[0].0, items[0].1 + ", " + token)] + items[1..]
    else [items[0]] + WithToken(items[1..], token)
  }

  method WithConnectionToken(items: seq<Item>, token: string) returns (r: seq<Item>)
    ensures r == WithToken(items, token)
  {
    r := items;
    for index := 0 to |items|
      invariant r == items
      invariant WithToken(items, token) == items[..index] + WithToken(items[index..], token)
    {
      var (name, value) := items[index];
      Unedited(items, token, index);
      if IsConnection(name) {
        var tokens := ParseConnectionTokens(value);
        if token !in tokens { r := items[index := (name, value + ", " + token)]; }
        return;
      }
    }
    r := items + [("Connection", token)];
    assert items[|items|..] == [];
    assert items[..|items|] == items;
  }

  /** The items before the first Connection header stay, and so do those after it. */
  lemma Unedited(items: seq<Item>, token: string, index: nat)
    requires index < |items|
    ensures var (name, value) := items[index];
      items[..index] + WithToken(items[index..], token) ==
        if !IsConnection(name) then items[..index + 1] + WithToken(items[index + 1..], token)
        else if token in Tokens(value) then items
        else items[index := (name, value + ", " + token)]
  {
    var (name, value) := items[index];
    assert items[index..][1..] == items[index + 1..] && items[..index] + [items[index]] == items[..index + 1];
    var later := WithToken(items[index + 1..], token);
    assert items[..index] + ([items[index]] + later) == items[..index] + [items[index]] + later;
    var edited := (name, value + ", " + token);
    assert items[..index] + ([edited] + items[index + 1..]) == items[index := edited];
    assert items[..index] + ([items[index]] + items[index + 1..]) == items;
  }

  // ---- the server's head ----

  function WithoutContentLength(items: seq<Item>): seq<Item> {
    if items == [] then []
    else (if LowerText(items[0].0) == "content-length" then [] else [items[0]]) + WithoutContentLength(items[1..])
  }

  predicate Frames(items: seq<Item>) {
    exists i :: 0 <= i < |items| && LowerText(items[i].0) in {"content-length", "transfer-encoding"}
  }

  /** The header items a response head is written with. */
  function HeadItems(status: int, items: seq<Item>, length: string, shouldClose: bool,
      hint: Option<string>): seq<Item> {
    var informational := 100 <= status < 200;
    var framed :=
      if informational || status == 204 then WithoutContentLength(items)
      else if !Frames(items) then items + [("Content-Length", length)]
      else items;
    if shouldClose then WithToken(framed, "close")
    else if !informational && hint.Some? then WithToken(framed + [("Keep-Alive", hint.value)], "keep-alive")
    else framed
  }

  /** Whether a request asks for a close, by its tokens or its version. */
  predicate RequestCloses(version: string, request: seq<Item>) {
    if version == "1.1" then "close" in ConnectionTokens(request)
    else if version == "1.0" then "keep-alive" !in ConnectionTokens(request)
    else true
  }

  /** Whether the persistence rules close the connection, for a response sent as HTTP/1.1. */
  predicate RulesClose(version: string, request: seq<Item>, response: seq<Item>, status: int) {
    status == 101 || "close" in ConnectionTokens(response) || RequestCloses(version, request)
  }

  /** The head of a local final response and whether it was told to announce a close. */
  function LocalHead(policy: Policy, completed: nat, version: string, request: seq<Item>, status: int,
                     response: seq<Item>, length: string, hint: Option<string>): seq<Item>
  {
    HeadItems(status, response, length,
              Announces(policy, status, RulesClose(version, request, response, status), completed), hint)
  }

  // ---- the client's reading ----

  datatype ParsedResponse = ParsedResponse(isComplete: bool, isEofDelimited: bool, version: string, status: int,
                                           headers: seq<Item>)

  predicate AllowsReuse(parsed: ParsedResponse) {
    && parsed.isComplete && !parsed.isEofDelimited && parsed.version == "1.1" && parsed.status != 101
    && "close" !in ConnectionTokens(parsed.headers)
  }

  method ResponseAllowsReuse(parsed: ParsedResponse) returns (reuse: bool)
    ensures reuse == AllowsReuse(parsed)
  {
    if !parsed.isComplete || parsed.isEofDelimited { return false; }
    if parsed.version != "1.1" || parsed.status == 101 { return false; }
    var tokens: set<string> := {};
    for i := 0 to |parsed.headers|
      invariant tokens + ConnectionTokens(parsed.headers[i..]) == ConnectionTokens(parsed.headers)
    {
      var (name, value) := parsed.headers[i];
      assert parsed.headers[i..][1..] == parsed.headers[i + 1..];
      if IsConnection(name) {
        var more := ParseConnectionTokens(value);
        tokens := tokens + more;
      }
    }
    reuse := "close" !in tokens;
  }

  // ---- tokens of edited lists ----

  lemma {:induction false} SplitAtComma(a: string, b: string)
    ensures Split(a + "," + b) == Split(a) + Split(b)
  {
    hide WithFirst;
    var whole := a + "," + b;
    if a == "" {
      assert whole[0] == ',' && whole[1..] == b;
      FirstThenRest(',', [], Split(b));
    } else {
      assert whole[0] == a[0] && whole[1..] == a[1..] + "," + b;
      SplitAtComma(a[1..], b);
      FirstThenRest(a[0], Split(a[1..]), Split(b));
    }
  }

  lemma FirstThenRest(c: char, first: seq<string>, rest: seq<string>)
    requires rest != []
    ensures first != [] ==> WithFirst(c, first + rest) == WithFirst(c, first) + rest
    ensures c == ',' ==> WithFirst(c, rest) == [""] + rest
  {
    if first != [] {
      assert (first + rest)[0] == first[0] && (first + rest)[1..] == first[1..] + rest;
    }
  }

  lemma {:induction false} PieceTokensAppend(a: seq<string>, b: seq<string>)
    ensures PieceTokens(a + b) == PieceTokens(a) + PieceTokens(b)
  {
    if a == [] {
      assert a + b == b;
    } else {
      assert (a + b)[1..] == a[1..] + b;
      PieceTokensAppend(a[1..], b);
    }
  }

  /** A token in its normal form: lowercase, without commas and outer whitespace. */
  predicate IsToken(token: string) {
    && token != "" && LowerText(token) == token
    && !IsSpace(token[0]) && !IsSpace(token[|token| - 1])
    && forall i :: 0 <= i < |token| ==> token[i] != ','
  }

  lemma {:induction false} SplitPlain(s: string)
    requires forall i :: 0 <= i < |s| ==> s[i] != ','
    ensures Split(s) == [s]
  {
    if s != "" {
      SplitPlain(s[1..]);
      assert [s[0]] + s[1..] == s;
    }
  }

  /** Appending a token to a header value adds that token and no other. */
  lemma AppendToken(value: string, token: string)
    requires IsToken(token)
    ensures Tokens(value + ", " + token) == Tokens(value) + {token}
    ensures Tokens(token) == {token}
  {
    var padded := " " + token;
    OneToken(token);
    assert value + ", " + token == value + "," + padded;
    hide Split, Strip, LowerText, PieceTokens;
    SplitAtComma(value, padded);
    PieceTokensAppend(Split(value), Split(padded));
  }

  lemma OneToken(token: string)
    requires IsToken(token)
    ensures Tokens(token) == {token} && Tokens(" " + token) == {token}
  {
    var padded := " " + token;
    SplitPlain(padded);
    SplitPlain(token);
    hide Split;
    assert padded[1..] == token;
    assert Strip(padded) == Strip(token) == token;
    assert PieceTokens([padded]) == {token} + PieceTokens([padded][1..]) == {token};
    assert PieceTokens([token]) == {token} + PieceTokens([token][1..]) == {token};
  }

  lemma {:induction false} TokensAppend(a: seq<Item>, b: seq<Item>)
    ensures ConnectionTokens(a + b) == ConnectionTokens(a) + ConnectionTokens(b)
  {
    if a == [] {
      assert a + b == b;
    } else {
      assert (a + b)[1..] == a[1..] + b;
      TokensAppend(a[1..], b);
    }
  }

  lemma {:induction false} WithTokenAdds(items: seq<Item>, token: string)
    requires IsToken(token)
    ensures ConnectionTokens(WithToken(items, token)) == ConnectionTokens(items) + {token}
  {
    AppendToken(if items == [] then "" else items[0].1, token);
    if items == [] {
      ConnectionName();
    } else if !IsConnection(items[0].0) {
      WithTokenAdds(items[1..], token);
    }
  }

  lemma ConnectionName()
    ensures IsConnection("Connection") && !IsConnection("Content-Length") && !IsConnection("Keep-Alive")
    ensures IsToken("close") && IsToken("keep-alive")
  {
    assert LowerText("Connection") == "connection";
    assert LowerText("close") == "close" && LowerText("keep-alive") == "keep-alive";
    assert |LowerText("Content-Length")| != |"connection"| && LowerText("Keep-Alive")[0] != 'c';
  }

  lemma {:induction false} WithoutContentLengthTokens(items: seq<Item>)
    ensures ConnectionTokens(WithoutContentLength(items)) == ConnectionTokens(items)
  {
    if items != [] {
      WithoutContentLengthTokens(items[1..]);
      var rest := WithoutContentLength(items[1..]);
      if LowerText(items[0].0) == "content-length" {
        assert WithoutContentLength(items) == rest;
      } else {
        assert WithoutContentLength(items)[1..] == rest;
      }
    }
  }

  /** A head's Connection tokens are the response's, plus the one the server adds. */
  lemma HeadTokens(status: int, items: seq<Item>, length: string, shouldClose: bool, hint: Option<string>)
    ensures ConnectionTokens(HeadItems(status, items, length, shouldClose, hint)) ==
      ConnectionTokens(items) +
        (if shouldClose then {"close"}
         else if !(100 <= status < 200) && hint.Some? then {"keep-alive"} else {})
  {
    ConnectionName();
    WithoutContentLengthTokens(items);
    TokensAppend(items, [("Content-Length", length)]);
    var informational := 100 <= status < 200;
    var framed :=
      if informational || status == 204 then WithoutContentLength(items)
      else if !Frames(items) then items + [("Content-Length", length)]
      else items;
    assert ConnectionTokens([("Content-Length", length)]) == {};
    assert ConnectionTokens(framed) == ConnectionTokens(items);
    if shouldClose {
      WithTokenAdds(framed, "close");
    } else if !informational && hint.Some? {
      TokensAppend(framed, [("Keep-Alive", hint.value)]);
      assert ConnectionTokens([("Keep-Alive", hint.value)]) == {};
      WithTokenAdds(framed + [("Keep-Alive", hint.value)], "keep-alive");
    }
  }

  // ---- what the text functions mean ----

  /** In ASCII, letters and only letters change, each to its small one; in Latin-1 those from
      0xC0 to 0xDE do too, except the multiplication sign. */
  lemma LowerLetters(c: char)
    ensures forall i :: 0 <= i < 26 ==> LowerChar(UPPER[i]) == LOWER[i]
    ensures c as int < 128 && c !in UPPER ==> LowerChar(c) == c
    ensures 128 <= c as int < 256 ==>
      LowerChar(c) as int == c as int + (if 0xC0 <= c as int <= 0xDE && c as int != 0xD7 then 32 else 0)
  {
    if 'A' <= c <= 'Z' { assert c == UPPER[c as int - 65]; }
  }

  const BLANKS: string := "\t\n\U{0B}\U{0C}\r\U{1C}\U{1D}\U{1E}\U{1F} \U{85}\U{A0}"

  /** These characters are whitespace, and in Latin-1 no others. */
  lemma Spaces(c: char)
    ensures IsSpace(c) <==> c in BLANKS
  {
    if IsSpace(c) {
      var n := c as int;
      assert c == BLANKS[if n <= 13 then n - 9 else if n <= 32 then n - 23 else if n == 0x85 then 10 else 11];
    }
  }

  /** The pieces with commas in between. */
  function WithCommas(pieces: seq<string>): string
    requires pieces != []
  {
    if |pieces| == 1 then pieces[0] else pieces[0] + "," + WithCommas(pieces[1..])
  }

  /** Splitting is undone by the commas, and no piece has one. */
  lemma {:induction false} SplitIs(s: string)
    ensures WithCommas(Split(s)) == s
    ensures forall p :: p in Split(s) ==> ',' !in p
  {
    if s != "" {
      SplitIs(s[1..]);
      var pieces := Split(s[1..]);
      if s[0] == ',' {
        assert ([""] + pieces)[1..] == pieces;
        assert "" + "," + s[1..] == s;
      } else {
        var all := [[s[0]] + pieces[0]] + pieces[1..];
        assert all[1..] == pieces[1..];
        FirstPiece(s[0], pieces, s[1..]);
      }
    }
  }

  lemma FirstPiece(c: char, pieces: seq<string>, rest: string)
    requires pieces != [] && WithCommas(pieces) == rest
    ensures WithCommas([[c] + pieces[0]] + pieces[1..]) == [c] + rest
  {
    var all := [[c] + pieces[0]] + pieces[1..];
    assert all[1..] == pieces[1..];
    if |pieces| > 1 {
      var more := WithCommas(pieces[1..]);
      assert [c] + pieces[0] + "," + more == [c] + (pieces[0] + "," + more);
    }
  }

  /** Stripping removes whitespace at both ends, and all of it there. */
  lemma {:induction false} StripIs(s: string) returns (from: nat, to: nat)
    ensures from <= to <= |s| && Strip(s) == s[from..to]
    ensures forall i :: 0 <= i < |s| && (i < from || to <= i) ==> IsSpace(s[i])
    ensures from < to ==> !IsSpace(s[from]) && !IsSpace(s[to - 1])
    decreases |s|
  {
    if s != "" && IsSpace(s[0]) {
      from, to := StripIs(s[1..]);
      from, to := from + 1, to + 1;
      forall i | 0 <= i < |s| && (i < from || to <= i) ensures IsSpace(s[i]) {
        if i > 0 { assert s[i] == s[1..][i - 1]; }
      }
    } else if s != "" && IsSpace(s[|s| - 1]) {
      var front := s[..|s| - 1];
      from, to := StripIs(front);
      forall i | 0 <= i < |s| && (i < from || to <= i) ensures IsSpace(s[i]) {
        if i < |front| { assert s[i] == front[i]; }
      }
    } else {
      from, to := 0, |s|;
      assert s[0..|s|] == s;
    }
  }

  /** A value's tokens are its pieces between commas, stripped and in lower case, but for
      empty ones. */
  lemma {:induction false} PieceTokensAre(pieces: seq<string>, token: string)
    ensures token in PieceTokens(pieces) <==>
      token != "" && exists i :: 0 <= i < |pieces| && LowerText(Strip(pieces[i])) == token
  {
    if pieces != [] {
      var rest := pieces[1..];
      PieceTokensAre(rest, token);
      if i :| 0 <= i < |rest| && LowerText(Strip(rest[i])) == token { assert pieces[i + 1] == rest[i]; }
      if i :| 0 <= i < |pieces| && LowerText(Strip(pieces[i])) == token {
        if i > 0 { assert rest[i - 1] == pieces[i]; }
      }
    }
  }

  predicate HasConnection(items: seq<Item>) {
    exists i :: 0 <= i < |items| && IsConnection(items[i].0)
  }

  /** The tokens of a header list are those of its Connection headers. */
  lemma {:induction false} ConnectionTokensAre(items: seq<Item>, token: string)
    ensures token in ConnectionTokens(items) <==>
      exists i :: 0 <= i < |items| && IsConnection(items[i].0) && token in Tokens(items[i].1)
  {
    if items != [] {
      var rest := items[1..];
      ConnectionTokensAre(rest, token);
      if i :| 0 <= i < |rest| && IsConnection(rest[i].0) && token in Tokens(rest[i].1) {
        assert items[i + 1] == rest[i];
      }
      if i :| 0 <= i < |items| && IsConnection(items[i].0) && token in Tokens(items[i].1) {
        if i > 0 { assert rest[i - 1] == items[i]; }
      }
    }
  }

  // ---- when a request asks for a close ----

  /** HTTP/1.1 persists unless told otherwise, HTTP/1.0 does not unless told otherwise, and
      no other version persists (section 9.3 of RFC 9112). */
  lemma VersionsPersist(request: seq<Item>, version: string)
    ensures !HasConnection(request) ==> RequestCloses("1.0", request) && !RequestCloses("1.1", request)
    ensures !RequestCloses("1.0", WithToken(request, "keep-alive"))
    ensures RequestCloses("1.1", WithToken(request, "close"))
    ensures RequestCloses("1.1", WithToken(request, "keep-alive")) == RequestCloses("1.1", request)
    ensures RequestCloses("1.0", WithToken(request, "close")) == RequestCloses("1.0", request)
    ensures version != "1.0" && version != "1.1" ==> RequestCloses(version, request)
  {
    ConnectionName();
    WithTokenAdds(request, "keep-alive");
    WithTokenAdds(request, "close");
    ConnectionTokensAre(request, "close");
    ConnectionTokensAre(request, "keep-alive");
  }

  /** The heads of plain final responses, below the request limit: `close` is in them exactly
      if the request does not persist. */
  lemma HeadsPersist(policy: Policy, completed: nat, request: seq<Item>, status: int, response: seq<Item>,
                     length: string, hint: Option<string>)
    requires !HasConnection(response) && status != 101 && !AtLimit(policy, completed)
    ensures !HasConnection(request) ==>
      && "close" in ConnectionTokens(LocalHead(policy, completed, "1.0", request, status, response, length, hint))
      && "close" !in ConnectionTokens(LocalHead(policy, completed, "1.1", request, status, response, length, hint))
    ensures var kept := WithToken(request, "keep-alive");
      "close" !in ConnectionTokens(LocalHead(policy, completed, "1.0", kept, status, response, length, hint))
    ensures var closing := WithToken(request, "close");
      "close" in ConnectionTokens(LocalHead(policy, completed, "1.1", closing, status, response, length, hint))
  {
    VersionsPersist(request, "1.1");
    ConnectionTokensAre(response, "close");
    var kept, closing := WithToken(request, "keep-alive"), WithToken(request, "close");
    hide RequestCloses, LocalHead, WithToken;
    HeadCarriesClose(policy, completed, "1.0", request, status, response, length, hint);
    HeadCarriesClose(policy, completed, "1.1", request, status, response, length, hint);
    HeadCarriesClose(policy, completed, "1.0", kept, status, response, length, hint);
    HeadCarriesClose(policy, completed, "1.1", closing, status, response, length, hint);
  }

  /** Every response announces a close that has status 101, the `close` token, or uses up the
      requests allowed. */
  lemma AlwaysAnnounced(policy: Policy, completed: nat, version: string, request: seq<Item>, status: int,
                        response: seq<Item>, length: string, hint: Option<string>)
    requires status == 101 || "close" in ConnectionTokens(response)
             || (policy.maxRequests.Some? && completed >= policy.maxRequests.value)
    ensures "close" in ConnectionTokens(LocalHead(policy, completed, version, request, status, response, length, hint))
    ensures status == 101 || "close" in ConnectionTokens(response) ==> RulesClose(version, request, response, status)
  {
    HeadCarriesClose(policy, completed, version, request, status, response, length, hint);
  }

  /** What rules out that a client goes on: a response cut short, one that ends with the
      connection, another version, a switch of protocols, or the `close` token. */
  lemma ReuseRuledOut(parsed: ParsedResponse)
    ensures !parsed.isComplete ==> !AllowsReuse(parsed)
    ensures parsed.isEofDelimited || parsed.status == 101 ==> !AllowsReuse(parsed)
    ensures parsed.version != "1.1" || "close" in ConnectionTokens(parsed.headers) ==> !AllowsReuse(parsed)
    ensures !HasConnection(parsed.headers) && parsed.status != 101 ==>
      AllowsReuse(ParsedResponse(true, false, "1.1", parsed.status, parsed.headers))
  {
    ConnectionTokensAre(parsed.headers, "close");
  }

  // ---- how a head frames its body ----

  predicate IsLength(name: string) {
    LowerText(name) == "content-length"
  }

  predicate IsFraming(name: string) {
    IsLength(name) || LowerText(name) == "transfer-encoding"
  }

  lemma {:induction false} WithoutLength(items: seq<Item>, item: Item)
    ensures item in WithoutContentLength(items) <==> item in items && !IsLength(item.0)
  {
    if items != [] {
      WithoutLength(items[1..], item);
      var kept := if LowerText(items[0].0) == "content-length" then [] else [items[0]];
      assert item in items <==> item == items[0] || item in items[1..];
      assert item in WithoutContentLength(items) <==> item in kept || item in WithoutContentLength(items[1..]);
    }
  }

  lemma {:induction false} WithTokenKeeps(items: seq<Item>, token: string, item: Item)
    requires !IsConnection(item.0)
    ensures item in WithToken(items, token) <==> item in items
  {
    ConnectionName();
    if items != [] {
      if IsConnection(items[0].0) {
        assert item in items <==> item in items[1..];
        var first := WithToken(items, token)[0];
        assert WithToken(items, token) == [first] + items[1..];
      } else {
        WithTokenKeeps(items[1..], token, item);
        assert item in items <==> item == items[0] || item in items[1..];
        assert WithToken(items, token) == [items[0]] + WithToken(items[1..], token);
      }
    }
  }

  /** A head without a body names no length; any other head has the response's own framing,
      or else exactly the body's length. */
  lemma HeadFrames(status: int, items: seq<Item>, length: string, shouldClose: bool, hint: Option<string>, item: Item)
    requires IsFraming(item.0)
    ensures item in HeadItems(status, items, length, shouldClose, hint) <==>
      if 100 <= status < 200 || status == 204 then item in items && !IsLength(item.0)
      else if exists other :: other in items && IsFraming(other.0) then item in items
      else item == ("Content-Length", length)
  {
    ConnectionName();
    assert !IsConnection(item.0) && LowerText("Content-Length") == "content-length" && item.0 != "Keep-Alive";
    WithoutLength(items, item);
    FramesIff(items);
    var framed :=
      if 100 <= status < 200 || status == 204 then WithoutContentLength(items)
      else if !Frames(items) then items + [("Content-Length", length)]
      else items;
    assert item in framed <==>
      if 100 <= status < 200 || status == 204 then item in items && !IsLength(item.0)
      else if Frames(items) then item in items
      else item == ("Content-Length", length);
    WithTokenKeeps(framed, "close", item);
    if hint.Some? { WithTokenKeeps(framed + [("Keep-Alive", hint.value)], "keep-alive", item); }
  }

  lemma FramesIff(items: seq<Item>)
    ensures Frames(items) <==> exists other :: other in items && IsFraming(other.0)
  {
    if i :| 0 <= i < |items| && LowerText(items[i].0) in {"content-length", "transfer-encoding"} {
      assert items[i] in items;
    }
    if other :| other in items && IsFraming(other.0) {
      var i :| 0 <= i < |items| && items[i] == other;
    }
  }

  // ---- both ends ----

  /** A local final response's head carries `close` exactly when it was told to announce it. */
  lemma HeadCarriesClose(policy: Policy, completed: nat, version: string, request: seq<Item>, status: int,
                         response: seq<Item>, length: string, hint: Option<string>)
    ensures "close" in ConnectionTokens(LocalHead(policy, completed, version, request, status, response, length, hint))
      <==> Announces(policy, status, RulesClose(version, request, response, status), completed)
  {
    HeadTokens(status, response, length,
               Announces(policy, status, RulesClose(version, request, response, status), completed), hint);
  }

  /** For a complete, length-delimited HTTP/1.1 response, the client reuses the connection
      exactly when the server announced no close. */
  lemma ClientAgrees(policy: Policy, completed: nat, version: string, request: seq<Item>, status: int,
                     response: seq<Item>, length: string, hint: Option<string>)
    ensures
      var head := LocalHead(policy, completed, version, request, status, response, length, hint);
      var announced := Announces(policy, status, RulesClose(version, request, response, status), completed);
      AllowsReuse(ParsedResponse(true, false, "1.1", status, head)) <==> !announced
  {
    HeadCarriesClose(policy, completed, version, request, status, response, length, hint);
  }

  /** What two ends that agree come to: a close that was announced comes about, and one that
      was not does not. */
  predicate AgreeWhen(announced: bool, decided: bool, asked: bool, policy: Policy, completed: nat) {
    if announced then decided || asked || AtLimit(policy, completed) || ZeroTimeout(policy)
    else !decided && !asked && !ZeroTimeout(policy)
  }

  /** When the client's answer to a local head matches what the server does: `decided` says
      that a close was decided otherwise than by the policy, at any time up to it, and
      `asked` that the policy was asked to close. */
  lemma BothEndsAgreeIff(policy: Policy, completed: nat, decided: bool, asked: bool, version: string,
                         request: seq<Item>, status: int, response: seq<Item>, length: string, hint: Option<string>)
    ensures
      var head := LocalHead(policy, completed, version, request, status, response, length, hint);
      var announced := Announces(policy, status, RulesClose(version, request, response, status), completed);
      var closes := decided || PolicyCloses(policy, completed, asked);
      (AllowsReuse(ParsedResponse(true, false, "1.1", status, head)) <==> !closes)
        <==> AgreeWhen(announced, decided, asked, policy, completed)
  {
    ClientAgrees(policy, completed, version, request, status, response, length, hint);
  }

  /** The request is answered by one local response, whole, with this status and these tokens. */
  predicate AnswersLocally(steps: seq<RespondStep>, status: int, closeTokens: bool) {
    && OneResponse(steps)
    && match SpecsOf(steps)[0]
       case Local(code, tokens, _, _) => code == status && tokens == closeTokens
       case Relay(_, BadGateway(fallback)) => status == 502 && fallback.closeTokens == closeTokens
       case _ => false
  }

  /** A request answered after it was read, from here or for want of an upstream, and the
      client's reading of the answer; whatever middleware does around it. */
  method RespondAndReuse(c: HTTPConnection, r: Round, served: Request, version: string, request: seq<Item>,
                         status: int, response: seq<Item>, length: string, hint: Option<string>)
    returns (close: bool, reuse: bool)
    requires c.Serving(false, true) && served == c.requests[|c.requests| - 1] && c.final.None?
    requires AnswersLocally(r.respond, status, RulesClose(version, request, response, status))
    modifies c`sending, c`sentAny, c`phase, c`closed, c`attempts, c`exchanges
    ensures
      var announced := Announces(c.policy, status, RulesClose(version, request, response, status), c.requestsCompleted);
      var decided := old(c.closed).Some? || Decides(r.respond);
      var asked := Asked(r.respond, r.respondEnd, c.policy, c.requestsCompleted);
      && reuse == !announced
      && ((reuse <==> !close) <==> AgreeWhen(announced, decided, asked, c.policy, c.requestsCompleted))
      && (r.respondEnd.LastSend? ==>
            ((reuse <==> !close) <==> announced || (!decided && !ZeroTimeout(c.policy))))
      && (old(c.closed).None? && Decides(r.respond) ==>
            c.closed.Some? && (SpecsOf(r.respond)[0].Local? ==> c.closed.value.reason.Shutdown?))
  {
    hide CountComplete, Paired, NoneClosed, LastCarries, FirstOf, Sane, RulesClose, LocalHead, AllowsReuse, Decides,
      SpecsOf;
    ghost var decided := c.closed.Some? || Decides(r.respond);
    ghost var asked := Asked(r.respond, r.respondEnd, c.policy, c.requestsCompleted);
    var head := LocalHead(c.policy, c.requestsCompleted, version, request, status, response, length, hint);
    var flow;
    close, flow := c.HandleRequest(r, served);
    reuse := ResponseAllowsReuse(ParsedResponse(true, false, "1.1", status, head));
    ClientAgrees(c.policy, c.requestsCompleted, version, request, status, response, length, hint);
    BothEndsAgreeIff(c.policy, c.requestsCompleted, decided, asked, version, request, status, response, length, hint);
  }

  /** A request that header middleware answers before it is read: both ends agree exactly
      when the close was announced, or the stage proceeds, the body is there whole, and no
      close comes from elsewhere or from the timeout. */
  method EarlyFinalAndReuse(c: HTTPConnection, r: Round, head: seq<byte>, remaining: seq<byte>, kind: P.BodyKind,
                            version: string, request: seq<Item>, status: int, response: seq<Item>, length: string,
                            hint: Option<string>) returns (close: bool, reuse: bool)
    requires c.Serving(kind.NoBody?, false) && c.phase == (if kind.NoBody? then Responding else RequestBody)
    requires c.inFlight == |remaining| && c.final.None?
    requires StageOf(r.stage).final ==
      Some(FinalHead(status, RulesClose(version, request, response, status), WriteEnd.Sent))
    modifies c`interim, c`final, c`finalSendClose, c`sentAny, c`closed, c`attempts, c`sink, c`inFlight, c.reader
    modifies c`requests, c`phase, c`requestsCompleted, c`exchanges, c`sending
    ensures
      var completed := old(c.requestsCompleted) + (if kind.NoBody? then 0 else 1);
      var announced := Announces(c.policy, status, RulesClose(version, request, response, status), completed);
      var goesOn := r.stageEnd.Proceed? && P.HasBody(remaining + old(c.reader.Logical()), kind);
      && |c.reader.waits| >= old(|c.reader.waits|)
      && var decided := old(c.closed).Some? || StageOf(r.stage).decided
           || Comes(r.bodyShutdown, |c.reader.waits| - old(|c.reader.waits|));
         && reuse == !announced
         && ((reuse <==> !close) <==> announced || (goesOn && !decided && !ZeroTimeout(c.policy)))
         && (!close ==> c.closed.None? && c.Serving(false, false))
  {
    hide CountComplete, Paired, NoneClosed, LastCarries, FirstOf, Sane, RulesClose, LocalHead, AllowsReuse;
    var completed := c.requestsCompleted + (if kind.NoBody? then 0 else 1);
    var items := LocalHead(c.policy, completed, version, request, status, response, length, hint);
    var reading, flow := c.ReadAfterHead(r, head, remaining, kind);
    close := true;
    if reading.Some? {
      close, flow := c.HandleRequest(r, reading.value);
    }
    reuse := ResponseAllowsReuse(ParsedResponse(true, false, "1.1", status, items));
    ClientAgrees(c.policy, completed, version, request, status, response, length, hint);
  }

  // ---- relayed responses ----

  /** Whether the server keeps the connection after relaying this response. */
  predicate KeepsAlive(version: string, request: seq<Item>, relayed: ParsedResponse) {
    && !relayed.isEofDelimited && relayed.status != 101
    && "close" !in ConnectionTokens(relayed.headers)
    && (relayed.version == "1.0" ==> "keep-alive" in ConnectionTokens(relayed.headers))
    && !RequestCloses(version, request)
  }

  /** A relayed response is kept alive after HTTP/1.1 unless it or the request says otherwise,
      after HTTP/1.0 only if it says so, and never up to the end of the stream or after 101. */
  lemma RelayedPersists(version: string, request: seq<Item>, relayed: ParsedResponse)
    ensures relayed.isEofDelimited || relayed.status == 101 ==> !KeepsAlive(version, request, relayed)
    ensures RequestCloses(version, request) || "close" in ConnectionTokens(relayed.headers) ==>
      !KeepsAlive(version, request, relayed)
    ensures relayed.version == "1.0" && !HasConnection(relayed.headers) ==> !KeepsAlive(version, request, relayed)
    ensures !relayed.isEofDelimited && relayed.status != 101 && !RequestCloses(version, request) ==>
      && ("close" !in ConnectionTokens(relayed.headers) ==>
            KeepsAlive(version, request, relayed.(headers := WithToken(relayed.headers, "keep-alive"))))
      && (relayed.version != "1.0" && "close" !in ConnectionTokens(relayed.headers) ==>
            KeepsAlive(version, request, relayed))
  {
    ConnectionName();
    WithTokenAdds(relayed.headers, "keep-alive");
    ConnectionTokensAre(relayed.headers, "keep-alive");
  }

  /** A relayed head is not the server's own, so no close of the server's is announced in it:
      a client that may go on does not know of the server's limits, and one that may not is
      only waited for when an HTTP/1.0 response opted in to keep-alive. */
  lemma RelayedAgreeIff(policy: Policy, completed: nat, decided: bool, closing: bool, version: string,
                        request: seq<Item>, relayed: ParsedResponse)
    requires relayed.isComplete
    ensures
      var reuse := AllowsReuse(relayed);
      var ends := decided || closing || AtLimit(policy, completed) || ZeroTimeout(policy);
      var closes := decided || PolicyCloses(policy, completed, closing || !KeepsAlive(version, request, relayed));
      && ((reuse <==> !closes) <==>
            if reuse then !ends && !RequestCloses(version, request)
            else ends || !KeepsAlive(version, request, relayed))
      && (!reuse && KeepsAlive(version, request, relayed) ==> relayed.version != "1.1")
  {
  }

  /** A request answered by a relayed response, and the client's reading of it. */
  method RelayAndReuse(c: HTTPConnection, r: Round, served: Request, version: string, request: seq<Item>,
                       relayed: ParsedResponse) returns (close: bool, reuse: bool)
    requires c.Serving(false, true) && served == c.requests[|c.requests| - 1] && c.final.None?
    requires relayed.isComplete && OneResponse(r.respond) && r.respondEnd.LastSend?
    requires var spec := SpecsOf(r.respond)[0];
      spec.Relay? && spec.end.Relayed? && spec.end.keepAlive == KeepsAlive(version, request, relayed)
    modifies c`sending, c`sentAny, c`phase, c`closed, c`attempts, c`exchanges
    ensures
      var keeps := KeepsAlive(version, request, relayed);
      var ends := old(c.closed).Some? || Decides(r.respond) || SpecsOf(r.respond)[0].end.closing
        || AtLimit(c.policy, c.requestsCompleted) || ZeroTimeout(c.policy);
      && reuse == AllowsReuse(relayed)
      && ((reuse <==> !close) <==> if reuse then !ends && !RequestCloses(version, request) else ends || !keeps)
  {
    hide CountComplete, Paired, NoneClosed, LastCarries, FirstOf, Sane, KeepsAlive, AllowsReuse, Decides, SpecsOf;
    ghost var decided := c.closed.Some? || Decides(r.respond);
    ghost var closing := SpecsOf(r.respond)[0].end.closing;
    var flow;
    close, flow := c.HandleRequest(r, served);
    reuse := ResponseAllowsReuse(relayed);
    RelayedAgreeIff(c.policy, c.requestsCompleted, decided, closing, version, request, relayed);
  }

  // ---- the ends disagree: one input for each reason ----

  /** The silent close on a zero keep-alive timeout: an HTTP/1.1 request and a plain 200 response. */
  lemma SilentClose()
    ensures
      var policy := Policy(Some(0.0), None, false);
      var head := LocalHead(policy, 1, "1.1", [], 200, [], "0", None);
      AllowsReuse(ParsedResponse(true, false, "1.1", 200, head))
      && PolicyCloses(policy, 1, Announces(policy, 200, RulesClose("1.1", [], [], 200), 1))
  {
    ClientAgrees(Policy(Some(0.0), None, false), 1, "1.1", [], 200, [], "0", None);
  }

  lemma LastStep(steps: seq<RespondStep>, spec: Spec)
    requires steps == [RespondShutdown, Sends(spec)]
    ensures SpecsOf(steps) == [spec] && Decides(steps)
  {
    assert steps[1..] == [steps[1]] && steps[1..][1..] == [];
    assert SpecsOf([steps[1]]) == [spec] + SpecsOf([]);
    assert StepDecides(steps[0]);
  }

  /** The silent close on a shutdown: the handler shuts the server down and returns a plain
      200, with no keep-alive timeout at all. */
  method SilentShutdown(c: HTTPConnection, r: Round, served: Request) returns (close: bool, reuse: bool)
    requires c.Serving(false, true) && served == c.requests[|c.requests| - 1] && c.final.None?
    requires c.policy == Policy(None, None, false) && c.closed.None?
    requires r.respond == [RespondShutdown, Sends(Local(200, false, None, WriteEnd.Sent))] && r.respondEnd.LastSend?
    modifies c`sending, c`sentAny, c`phase, c`closed, c`attempts, c`exchanges
    ensures close && reuse && c.closed.Some? && c.closed.value.reason.Shutdown? && !ZeroTimeout(c.policy)
  {
    LastStep(r.respond, Local(200, false, None, WriteEnd.Sent));
    close, reuse := RespondAndReuse(c, r, served, "1.1", [], 200, [], "0", None);
  }

  /** The silent close after an early answer: header middleware sends a plain 403 and then
      closes instead of reading the body. */
  method SilentRejection(c: HTTPConnection, r: Round, head: seq<byte>, remaining: seq<byte>, kind: P.BodyKind)
    returns (close: bool, reuse: bool)
    requires c.Serving(kind.NoBody?, false) && c.phase == (if kind.NoBody? then Responding else RequestBody)
    requires c.inFlight == |remaining| && c.final.None? && c.policy == Policy(None, None, false)
    requires r.stage == Some([HeaderSend(403, false, WriteEnd.Sent)]) && r.stageEnd.CloseEarly?
    modifies c`interim, c`final, c`finalSendClose, c`sentAny, c`closed, c`attempts, c`sink, c`inFlight, c.reader
    modifies c`requests, c`phase, c`requestsCompleted, c`exchanges, c`sending
    ensures close && reuse && !ZeroTimeout(c.policy)
  {
    assert r.stage.value[..0] == [];
    close, reuse := EarlyFinalAndReuse(c, r, head, remaining, kind, "1.1", [], 403, [], "0", None);
  }

  /** The silent close after a relayed response: the request was the last one allowed. */
  lemma SilentLimit()
    ensures
      var relayed := ParsedResponse(true, false, "1.1", 200, []);
      AllowsReuse(relayed) && KeepsAlive("1.1", [], relayed)
      && PolicyCloses(Policy(None, Some(1), false), 1, !KeepsAlive("1.1", [], relayed))
  {
  }
}
