/** Properties of the `Authorization` header parsing: `Split` and `Join` are
    inverse, and the extracted token is exactly the field after the first space. */
module AuthProperties {
  import opened Wrappers
  import opened Auth

  predicate NoSep(fields: seq<string>, sep: char)
  {
    forall i :: 0 <= i < |fields| ==> sep !in fields[i]
  }

  /** Joining a field onto a non-empty list puts one separator between them. */
  lemma JoinCons(x: string, fields: seq<string>, sep: char)
    requires |fields| >= 1
    ensures Join([x] + fields, sep) == x + [sep] + Join(fields, sep)
  {
    assert ([x] + fields)[1..] == fields;
  }

  /** Splitting a text that starts with a separator-free prefix `a`: the prefix
      joins the first field of the remainder. */
  lemma {:induction false} SplitPrefix(a: string, t: string, sep: char)
    requires sep !in a
    ensures Split(a + t, sep) == [a + Split(t, sep)[0]] + Split(t, sep)[1..]
    decreases |a|
  {
    if |a| == 0 {
      var f := Split(t, sep);
      assert a + t == t;
      assert a + f[0] == f[0];
      assert f == [f[0]] + f[1..];
    } else {
      assert (a + t)[0] == a[0];
      assert (a + t)[1..] == a[1..] + t;
      SplitPrefix(a[1..], t, sep);
      assert [a[0]] + (a[1..] + Split(t, sep)[0]) == a + Split(t, sep)[0];
    }
  }

  /** `Split` undoes `Join` on separator-free fields (the converse round trip,
      `Join(Split(s)) == s`, is part of `Split`'s contract). */
  lemma {:induction false} SplitJoin(fields: seq<string>, sep: char)
    requires |fields| >= 1 && NoSep(fields, sep)
    ensures Split(Join(fields, sep), sep) == fields
    decreases |fields|
  {
    if |fields| == 1 {
      SplitPrefix(fields[0], "", sep);
      assert fields[0] + "" == fields[0];
    } else {
      var tail := fields[1..];
      SplitJoin(tail, sep);
      var joined := Join(tail, sep);
      assert Join(fields, sep) == fields[0] + ([sep] + joined);
      SplitPrefix(fields[0], [sep] + joined, sep);
      assert ([sep] + joined)[1..] == joined;
      assert Split([sep] + joined, sep) == [""] + tail;
      assert fields[0] + "" == fields[0];
      assert fields == [fields[0]] + tail;
    }
  }

  /** The header is laid out as `a + " " + t + rest` with `a` and `t` free of
      spaces, `t` non-empty, and `rest` empty or starting another field. */
  ghost predicate HasBearerLayout(h: string, t: string)
  {
    && t != "" && ' ' !in t
    && exists a, rest :: ' ' !in a && (rest == "" || rest[0] == ' ') && h == BearerHeader(a, t, rest)
  }

  /** Every extracted token sits in the layout. */
  lemma BearerTokenHasLayout(h: string, t: string)
    requires BearerToken(Some(h)) == Some(t)
    ensures HasBearerLayout(h, t)
  {
    var f := Split(h, ' ');
    var a := f[0];
    var rest := if |f| == 2 then "" else " " + Join(f[2..], ' ');
    JoinCons(f[0], f[1..], ' ');
    assert f == [f[0]] + f[1..];
    if |f| > 2 {
      JoinCons(f[1], f[2..], ' ');
      assert f[1..] == [f[1]] + f[2..];
    }
    assert h == BearerHeader(a, t, rest);
  }

  /** Every header in the layout yields its token. */
  lemma LayoutYieldsBearerToken(a: string, t: string, rest: string)
    requires ' ' !in a && t != "" && ' ' !in t && (rest == "" || rest[0] == ' ')
    ensures BearerToken(Some(BearerHeader(a, t, rest))) == Some(t)
  {
    var h := BearerHeader(a, t, rest);
    if rest == "" {
      assert Join([a, t], ' ') == h;
      SplitJoin([a, t], ' ');
    } else {
      var more := Split(rest[1..], ' ');
      var fields := [a, t] + more;
      JoinCons(t, more, ' ');
      assert [t] + more == fields[1..];
      JoinCons(a, fields[1..], ' ');
      assert fields == [a] + fields[1..];
      assert rest == [' '] + rest[1..];
      assert Join(fields, ' ') == h;
      SplitJoin(fields, ' ');
    }
  }

  /** The token `authenticateToken` extracts is exactly the non-empty,
      space-free text between the header's first space and the next space (or
      the end): both directions. */
  lemma BearerTokenIff(h: string, t: string)
    ensures BearerToken(Some(h)) == Some(t) <==> HasBearerLayout(h, t)
  {
    if BearerToken(Some(h)) == Some(t) {
      BearerTokenHasLayout(h, t);
    }
    if HasBearerLayout(h, t) {
      var a, rest :| ' ' !in a && (rest == "" || rest[0] == ' ') && h == BearerHeader(a, t, rest);
      LayoutYieldsBearerToken(a, t, rest);
    }
  }

  /** A request without a usable token is answered 401 whatever the verifier
      would have said: the token is never verified. */
  lemma MissingTokenNeverVerified(header: Option<string>, v1: string -> Option<Claims>, v2: string -> Option<Claims>)
    requires BearerToken(header).None?
    ensures Authenticate(header, v1) == Authenticate(header, v2) == TokenMissing
  {
  }

  /** The usual header `Bearer <token>` yields that token when the token is
      non-empty and has no space. */
  lemma BearerOfToken(token: string)
    requires token != "" && ' ' !in token
    ensures BearerToken(Some("Bearer " + token)) == Some(token)
  {
    assert "Bearer " + token == BearerHeader("Bearer", token, "");
    LayoutYieldsBearerToken("Bearer", token, "");
  }
}
