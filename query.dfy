/** The part of PHP's request handling that turns a query string into the `$_GET`
    array: split on '&', split each piece at its first '=', url-decode both halves,
    later pieces overriding earlier ones. */
module Query {
  import opened Encoding

  /** PHP `explode(sep, s)`: the pieces between separators, always at least one. */
  function Split(s: string, sep: char): (parts: seq<string>)
    ensures |parts| >= 1
    decreases |s|
  {
    if s == [] then [[]]
    else
      var rest := Split(s[1..], sep);
      if s[0] == sep then [[]] + rest else [[s[0]] + rest[0]] + rest[1..]
  }

  lemma {:induction false} SplitNoSeparator(s: string, sep: char)
    requires sep !in s
    ensures Split(s, sep) == [s]
  {
    if s != [] {
      SplitNoSeparator(s[1..], sep);
      assert [s[0]] + s[1..] == s;
    }
  }

  lemma {:induction false} SplitJoin(a: string, b: string, sep: char)
    requires sep !in a
    ensures Split(a + [sep] + b, sep) == [a] + Split(b, sep)
  {
    if a == [] {
      assert a + [sep] + b == [sep] + b;
      assert ([sep] + b)[1..] == b;
    } else {
      SplitJoin(a[1..], b, sep);
      assert (a + [sep] + b)[1..] == a[1..] + [sep] + b;
      assert [a[0]] + a[1..] == a;
    }
  }

  /** One `key=value` piece split at its first '='; a piece without '=' has an empty value. */
  function BreakAt(piece: string): (string, string)
    decreases |piece|
  {
    if piece == [] then ([], [])
    else if piece[0] == '=' then ([], piece[1..])
    else
      var (k, v) := BreakAt(piece[1..]);
      ([piece[0]] + k, v)
  }

  lemma {:induction false} BreakAtJoin(k: string, v: string)
    requires '=' !in k
    ensures BreakAt(k + "=" + v) == (k, v)
  {
    if k == [] {
      assert k + "=" + v == ['='] + v;
      assert (['='] + v)[1..] == v;
    } else {
      BreakAtJoin(k[1..], v);
      assert (k + "=" + v)[1..] == k[1..] + "=" + v;
      assert [k[0]] + k[1..] == k;
    }
  }

  /** Fold the pieces left to right into the request variables; an empty key is ignored. */
  function Collect(pieces: seq<string>): map<string, string>
    decreases |pieces|
  {
    if pieces == [] then map[]
    else
      var m := Collect(pieces[..|pieces| - 1]);
      var (k, v) := BreakAt(pieces[|pieces| - 1]);
      var key := UrlDecode(k);
      if key == [] then m else m[key := UrlDecode(v)]
  }

  /** The request variables of a query string (the part after '?'). */
  function ParseQuery(q: string): map<string, string>
  {
    Collect(Split(q, '&'))
  }

  /** The request variables of a link suffix that starts with '?'. */
  function QueryVars(paramString: string): map<string, string>
  {
    if |paramString| > 0 && paramString[0] == '?' then ParseQuery(paramString[1..])
    else ParseQuery(paramString)
  }

  /** The piece `k=urlencode(v)` for a plain one-letter key. */
  function Piece(k: char, v: string): string
  {
    [k] + "=" + UrlEncode(v)
  }

  /** A piece for a plain one-letter key holds no '&' and reads back as (k, v). */
  lemma PieceReadsBack(k: char, v: string)
    requires k !in "=%+&"
    ensures '&' !in Piece(k, v)
    ensures BreakAt(Piece(k, v)) == ([k], UrlEncode(v))
    ensures UrlDecode([k]) == [k] && UrlDecode(UrlEncode(v)) == v
  {
    var e := UrlEncode(v);
    assert forall i :: 1 <= i < |Piece(k, v)| ==> Piece(k, v)[i] == ("=" + e)[i - 1];
    BreakAtJoin([k], e);
    UrlDecodePlain([k]);
    UrlRoundTrip(v);
  }

  lemma SplitThree(p1: string, p2: string, p3: string)
    requires '&' !in p1 && '&' !in p2 && '&' !in p3
    ensures Split(p1 + "&" + p2 + "&" + p3, '&') == [p1, p2, p3]
  {
    assert p1 + "&" + p2 + "&" + p3 == p1 + ['&'] + (p2 + ['&'] + p3);
    SplitJoin(p1, p2 + ['&'] + p3, '&');
    SplitJoin(p2, p3, '&');
    SplitNoSeparator(p3, '&');
  }

  /** Adding one piece `k=v` with a plain non-empty key sets that variable. */
  lemma CollectSnoc(ps: seq<string>, p: string, k: string, v: string)
    requires BreakAt(p).0 == k && UrlDecode(k) == k && k != [] && UrlDecode(BreakAt(p).1) == v
    ensures Collect(ps + [p]) == Collect(ps)[k := v]
  {
    assert (ps + [p])[..|ps + [p]| - 1] == ps;
  }

  lemma CollectThree(p1: string, p2: string, p3: string, k1: string, k2: string, k3: string, v1: string, v2: string, v3: string)
    requires BreakAt(p1).0 == k1 && UrlDecode(k1) == k1 && k1 != [] && UrlDecode(BreakAt(p1).1) == v1
    requires BreakAt(p2).0 == k2 && UrlDecode(k2) == k2 && k2 != [] && UrlDecode(BreakAt(p2).1) == v2
    requires BreakAt(p3).0 == k3 && UrlDecode(k3) == k3 && k3 != [] && UrlDecode(BreakAt(p3).1) == v3
    ensures Collect([p1, p2, p3]) == map[k1 := v1, k2 := v2, k3 := v3]
  {
    CollectSnoc([], p1, k1, v1);
    assert [] + [p1] == [p1];
    CollectSnoc([p1], p2, k2, v2);
    assert [p1] + [p2] == [p1, p2];
    CollectSnoc([p1, p2], p3, k3, v3);
    assert [p1, p2] + [p3] == [p1, p2, p3];
  }

  /** The three-parameter string `a=..&b=..&c=..` that `http_build_query` produces for
      one-letter keys reads back to exactly those three values. */
  lemma ThreeParamsRoundTrip(a: char, x: string, b: char, y: string, c: char, z: string)
    requires a !in "=%+&" && b !in "=%+&" && c !in "=%+&"
    ensures ParseQuery(Piece(a, x) + "&" + Piece(b, y) + "&" + Piece(c, z)) == map[[a] := x, [b] := y, [c] := z]
  {
    PieceReadsBack(a, x);
    PieceReadsBack(b, y);
    PieceReadsBack(c, z);
    SplitThree(Piece(a, x), Piece(b, y), Piece(c, z));
    CollectThree(Piece(a, x), Piece(b, y), Piece(c, z), [a], [b], [c], x, y, z);
  }
}
