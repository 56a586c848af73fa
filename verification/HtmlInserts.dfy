/** What the HTML rewriting puts into the content: copies of the base path, and nothing else. */
module HtmlInserts {
  import opened HtmlRewrite
  import opened HtmlTheorems

  /** `r` is the content with copies of the base path put in at some places. */
  predicate Inserts(c: string, r: string, base: string)
    decreases |r|
  {
    || (c == "" && r == "")
    || (c != "" && r != "" && c[0] == r[0] && Inserts(c[1..], r[1..], base))
    || (base != "" && base <= r && Inserts(c, r[|base|..], base))
  }

  /** The same, but only right after a single quote; `q` says whether one comes right before. */
  predicate InsertsAfterQuote(s: string, r: string, base: string, q: bool)
    decreases |r|
  {
    || (s == "" && r == "")
    || (s != "" && r != "" && s[0] == r[0] && InsertsAfterQuote(s[1..], r[1..], base, s[0] == '\''))
    || (q && base != "" && base <= r && InsertsAfterQuote(s, r[|base|..], base, false))
  }

  /** Without a base path there is nothing to put in. */
  lemma {:induction false} InsertsNothing(c: string, r: string)
    ensures Inserts(c, r, "") <==> c == r
    decreases |r|
  {
    if c != "" && r != "" {
      InsertsNothing(c[1..], r[1..]);
      assert c == [c[0]] + c[1..] && r == [r[0]] + r[1..];
    }
  }

  lemma {:induction false} InsertsPrefix(u: string, c: string, r: string, base: string)
    requires Inserts(c, r, base)
    ensures Inserts(u + c, u + r, base)
  {
    if u == "" {
      assert u + c == c && u + r == r;
    } else {
      InsertsPrefix(u[1..], c, r, base);
      assert (u + c)[1..] == u[1..] + c && (u + r)[1..] == u[1..] + r;
    }
  }

  lemma InsertsBase(u: string, v: string, c: string, r: string, base: string)
    requires base != "" && Inserts(c, r, base)
    ensures Inserts(u + v + c, u + base + v + r, base)
  {
    InsertsPrefix(v, c, r, base);
    assert (base + (v + r))[|base|..] == v + r;
    InsertsPrefix(u, v + c, base + (v + r), base);
    assert u + v + c == u + (v + c) && u + base + v + r == u + (base + (v + r));
  }

  lemma {:induction false} FixInserts(c: string, base: string)
    requires AttributeBase(base)
    ensures Inserts(c, Fix(c, base), base)
    decreases |c|
  {
    hide Inserts, KindOf;
    if c == "" {
      InsertsEmpty(base);
    } else {
      var k, rest, t := KindOf(c, base), Rest(c, base), Fix(Rest(c, base), base);
      FixInserts(rest, base);
      RestSplit(c, base);
      FixStep(c, base);
      if k == HrefPlain {
        InsertsBase(HREF, "/", rest, t, base);
      } else if k == SrcPlain {
        InsertsBase(SRC, "/", rest, t, base);
      } else {
        InsertsPrefix(Front(c, base, Prefixed(base)), rest, t, base);
      }
    }
  }

  lemma InsertsEmpty(base: string)
    ensures Inserts("", "", base)
  {
  }

  // ---- After quotes ----

  lemma {:induction false} QuotePrefix(u: string, s: string, r: string, base: string, q: bool)
    requires InsertsAfterQuote(s, r, base, if u == "" then q else u[|u| - 1] == '\'')
    ensures InsertsAfterQuote(u + s, u + r, base, q)
    decreases |u|
  {
    if u == "" {
      assert u + s == s && u + r == r;
    } else {
      assert (u + s)[1..] == u[1..] + s && (u + r)[1..] == u[1..] + r;
      QuotePrefix(u[1..], s, r, base, u[0] == '\'');
    }
  }

  /** A replacement between single quotes that prefixes the quoted text. */
  lemma {:induction false} ReplaceInserts(s: string, x: string, m: string, base: string, q: bool)
    requires base != ""
    ensures InsertsAfterQuote(s, ReplaceAll(s, Quoted(x, m), Quoted(x, base + m)), base, q)
    decreases |s|
  {
    hide InsertsAfterQuote;
    var pat, sub := Quoted(x, m), Quoted(x, base + m);
    if s == "" {
      QuoteEmpty(base, q);
    } else if pat <= s {
      var s' := s[|pat|..];
      var r' := ReplaceAll(s', pat, sub);
      ReplaceInserts(s', x, m, base, true);
      QuotedInserts(x, m, s', r', base, q);
      assert s == pat + s';
    } else {
      var v := ReplaceAll(s[1..], pat, sub);
      ReplaceInserts(s[1..], x, m, base, s[0] == '\'');
      QuotePrefix([s[0]], s[1..], v, base, q);
      assert s == [s[0]] + s[1..];
    }
  }

  lemma QuoteEmpty(base: string, q: bool)
    ensures InsertsAfterQuote("", "", base, q)
  {
  }

  lemma QuotedInserts(x: string, m: string, s: string, r: string, base: string, q: bool)
    requires base != "" && InsertsAfterQuote(s, r, base, true)
    ensures InsertsAfterQuote(Quoted(x, m) + s, Quoted(x, base + m) + r, base, q)
  {
    var tail, tail' := m + Q + s, m + Q + r;
    QuotePrefix(m + Q, s, r, base, false);
    assert (base + tail')[|base|..] == tail';
    assert InsertsAfterQuote(tail, base + tail', base, true);
    QuotePrefix(x + Q, tail, base + tail', base, q);
    assert Quoted(x, m) + s == x + Q + tail;
    assert Quoted(x, base + m) + r == x + Q + (base + tail');
  }

  /** Text without quotes is copied as it is. */
  lemma {:induction false} CopiedThrough(u: string, s: string, r: string, base: string)
    requires '\'' !in u && InsertsAfterQuote(u + s, r, base, false)
    ensures u <= r && InsertsAfterQuote(s, r[|u|..], base, false)
    decreases |u|
  {
    if u == "" {
      assert u + s == s && r[0..] == r;
    } else {
      assert (u + s)[0] == u[0] && u[0] in u && (u + s)[1..] == u[1..] + s;
      CopiedThrough(u[1..], s, r[1..], base);
      assert r[1..][|u| - 1..] == r[|u|..];
    }
  }

  /** What is put in after quotes does not fall into what was put in before. */
  lemma {:induction false} InsertsCompose(c: string, s: string, r: string, base: string, q: bool)
    requires NoQuote(base) && Inserts(c, s, base) && InsertsAfterQuote(s, r, base, q)
    ensures Inserts(c, r, base)
    decreases |r|
  {
    if s == "" && r == "" {
    } else if q && base != "" && base <= r && InsertsAfterQuote(s, r[|base|..], base, false) {
      InsertsCompose(c, s, r[|base|..], base, false);
    } else if c != "" && c[0] == s[0] && Inserts(c[1..], s[1..], base) {
      InsertsCompose(c[1..], s[1..], r[1..], base, s[0] == '\'');
    } else {
      BaseCopied(s, r, base);
      InsertsCompose(c, s[|base|..], r[|base|..], base, false);
    }
  }

  lemma BaseCopied(s: string, r: string, base: string)
    requires NoQuote(base) && base != "" && base <= s && r != "" && s[0] == r[0]
    requires InsertsAfterQuote(s[1..], r[1..], base, s[0] == '\'')
    ensures base <= r && InsertsAfterQuote(s[|base|..], r[|base|..], base, false)
  {
    hide InsertsAfterQuote;
    var rest, tail := s[|base|..], base[1..];
    assert base[0] in base && base[0] == s[0] && s[1..] == tail + rest;
    CopiedThrough(tail, rest, r[1..], base);
    assert r[1..][|tail|..] == r[|base|..];
    assert base == [base[0]] + tail && r == [r[0]] + r[1..];
  }

  lemma OnceInserts(c: string, s: string, base: string, x: string, m: string)
    requires NoQuote(base) && base != "" && Inserts(c, s, base)
    ensures Inserts(c, Once(s, x, m, base + m), base)
  {
    hide Inserts, InsertsAfterQuote;
    if !Contains(s, Quoted(x, base + m)) {
      ReplaceInserts(s, x, m, base, false);
      InsertsCompose(c, s, ReplaceAll(s, Quoted(x, m), Quoted(x, base + m)), base, false);
    }
  }

  /** With no base path the content comes back unchanged; with one, copies of it are put in and nothing else happens,
    * unless a NUL is misread.
    */
  lemma RewriteOnlyInserts(c: string, base: string)
    requires base == "" || (SafeBase(base) && !Misreads(c, base))
    ensures Inserts(c, RewriteHtml(c, base), base)
  {
    hide Inserts;
    if base == "" {
      InsertsNothing(c, c);
    } else {
      AttributesExactIff(c, base);
      FixInserts(c, base);
      RewriteParts(c, base);
      OnceInserts(c, Fix(c, base), base, "", WORKER);
      OnceInserts(c, Once(Fix(c, base), "", WORKER, base + WORKER), base, SCOPE, "/");
    }
  }

  lemma NoBaseNoChange(c: string)
    ensures RewriteHtml(c, "") == c
  {
    RewriteOnlyInserts(c, "");
    InsertsNothing(c, RewriteHtml(c, ""));
  }

  // ---- What it reaches ----

  lemma OnceAppears(s: string, x: string, m: string, m': string)
    ensures Contains(Once(s, x, m, m'), Quoted(x, m')) <==> Contains(s, Quoted(x, m)) || Contains(s, Quoted(x, m'))
  {
    if !Contains(s, Quoted(x, m')) {
      if Contains(s, Quoted(x, m)) {
        ReplacedAppears(s, Quoted(x, m), Quoted(x, m'));
      } else {
        NothingReplaced(s, Quoted(x, m), Quoted(x, m'));
      }
    }
  }

  /** The service worker path comes out with the base path exactly when the content has it with or without. */
  lemma WorkerReached(c: string, base: string)
    requires SafeBase(base)
    ensures Contains(RewriteHtml(c, base), Quoted("", base + WORKER))
            <==> Contains(c, Quoted("", WORKER)) || Contains(c, Quoted("", base + WORKER))
  {
    var s := RewriteAttributes(c, base);
    var y := Once(s, "", WORKER, base + WORKER);
    RewriteParts(c, base);
    BaseUnquoted(base);
    assert NUL !in base && NUL !in WORKER;
    AttributesKeepQuoted(c, base, "", WORKER);
    AttributesKeepQuoted(c, base, "", base + WORKER);
    OnceAppears(s, "", WORKER, base + WORKER);
    QuotedKept(y, SCOPE, "/", base + "/", base + WORKER);
  }

  /** Whatever the content, the rewriting reaches every place it is for: every root href and src is followed by the
    * base path, a service worker path in the content comes out with it, and a root scope is left only beside one with
    * it.
    */
  lemma RewriteReaches(c: string, base: string)
    requires SafeBase(base)
    ensures var r := RewriteHtml(c, base);
            && (forall k :: 0 <= k <= |r| && "href=\"/" <= r[k..] ==> "href=\"" + base + "/" <= r[k..])
            && (forall k :: 0 <= k <= |r| && "src=\"/" <= r[k..] ==> "src=\"" + base + "/" <= r[k..])
            && (Contains(c, "'/sw.js'") || Contains(c, "'" + base + "/sw.js'") <==> Contains(r, "'" + base + "/sw.js'"))
            && (Contains(r, "scope: '/'") ==> Contains(r, "scope: '" + base + "/'"))
  {
    hide RewriteHtml, Contains;
    var r := RewriteHtml(c, base);
    RewriteIsComplete(c, base);
    forall k | 0 <= k <= |r|
      ensures BasedHere(r[k..], base)
    {
    }
    RewriteParts(c, base);
    WorkerAndScopeSettles(RewriteAttributes(c, base), base);
    WorkerReached(c, base);
    assert "'/sw.js'" == Quoted("", WORKER) && "scope: '/'" == Quoted(SCOPE, "/");
    assert "'" + base + "/sw.js'" == Quoted("", base + WORKER);
    assert "scope: '" + base + "/'" == Quoted(SCOPE, base + "/");
  }
}
