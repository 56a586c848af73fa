/** Completeness and idempotence of the HTML rewriting as a whole. */
module HtmlTheorems {
  import opened HtmlRewrite
  import opened HtmlSecondPass
  import opened Sequences

  const Q := "'"

  /** A base path the whole rewriting can cope with. */
  predicate SafeBase(base: string) {
    AttributeBase(base) && '\'' !in base
  }

  /** Where the text starts an attribute, the base path and a slash follow. */
  predicate BasedHere(t: string, base: string) {
    (HREF_ROOT <= t ==> HrefBase(base) <= t) && (SRC_ROOT <= t ==> SrcBase(base) <= t)
  }

  /** Every attribute start in the text is followed by the base path and a slash. */
  predicate Complete(t: string, base: string) {
    forall k :: 0 <= k <= |t| ==> BasedHere(t[k..], base)
  }

  // ---- Completeness of the attribute rewriting ----

  /** Every piece is prefixed, or a placeholder. */
  predicate BasedStyle(f: Style, base: string) {
    Pieces(f, base) && f.h == HrefBase(base) && f.s == SrcBase(base) && Based(f.hb, base) && Based(f.sb, base)
  }

  predicate Based(u: string, base: string) {
    u == HrefBase(base) || u == SrcBase(base) || u == HREF_MARK || u == SRC_MARK
  }

  lemma ScanHere(c: string, base: string, f: Style)
    requires AttributeBase(base) && BasedStyle(f, base)
    ensures BasedHere(Scan(c, base, f), base)
  {
    if c != "" {
      if KindOf(c, base) == NoStart {
        PlainStays(c, base, f);
      } else {
        assert Scan(c, base, f)[0] == f.Of(KindOf(c, base))[0];
      }
    }
  }

  lemma {:induction false} ScanBasedAt(c: string, base: string, f: Style, k: nat)
    requires AttributeBase(base) && BasedStyle(f, base) && k <= |Scan(c, base, f)|
    ensures BasedHere(Scan(c, base, f)[k..], base)
    decreases |c|
  {
    if k == 0 {
      assert Scan(c, base, f)[0..] == Scan(c, base, f);
      ScanHere(c, base, f);
    } else {
      var u, v := Front(c, base, f), Scan(Rest(c, base), base, f);
      if k < |u| {
        NoStartInside(u, base, v, k, HREF_ROOT);
        NoStartInside(u, base, v, k, SRC_ROOT);
      } else {
        assert (u + v)[k..] == v[k - |u|..];
        ScanBasedAt(Rest(c, base), base, f, k - |u|);
      }
    }
  }

  /** The content with its attribute starts prefixed or marked holds no plain attribute start. */
  lemma ScanIsComplete(c: string, base: string, f: Style)
    requires AttributeBase(base) && BasedStyle(f, base)
    ensures Complete(Scan(c, base, f), base)
  {
    forall k | 0 <= k <= |Scan(c, base, f)|
      ensures BasedHere(Scan(c, base, f)[k..], base)
    {
      ScanBasedAt(c, base, f, k);
    }
  }

  /** A placeholder and the attribute start it is turned back into. */
  predicate TurnsBack(mark: string, sub: string, base: string) {
    [NUL] <= mark && (sub == HrefBase(base) || sub == SrcBase(base))
  }

  /** Turning a placeholder back makes no plain attribute start at the front of the text. */
  lemma UnmarkedHere(t: string, base: string, mark: string, sub: string)
    requires AttributeBase(base) && TurnsBack(mark, sub, base) && BasedHere(t, base)
    ensures BasedHere(ReplaceAll(t, mark, sub), base)
  {
    if t == "" {
    } else if mark <= t {
      assert ReplaceAll(t, mark, sub)[0] == sub[0];
    } else {
      RootUnmarked(t, base, mark, sub, HREF_ROOT, HrefBase(base));
      RootUnmarked(t, base, mark, sub, SRC_ROOT, SrcBase(base));
    }
  }

  lemma RootUnmarked(t: string, base: string, mark: string, sub: string, root: string, based: string)
    requires AttributeBase(base) && TurnsBack(mark, sub, base) && t != "" && !(mark <= t)
    requires (root == HREF_ROOT && based == HrefBase(base)) || (root == SRC_ROOT && based == SrcBase(base))
    requires root <= t ==> based <= t
    ensures root <= ReplaceAll(t, mark, sub) ==> based <= ReplaceAll(t, mark, sub)
  {
    hide StartFree;
    RootTail(root);
    BasedWithoutNul(base);
    UnmarkStart(t[1..], mark, sub, root[1..]);
    HeadTail(root, t[0], ReplaceAll(t[1..], mark, sub));
    HeadTail(root, t[0], t[1..]);
    assert t == [t[0]] + t[1..];
    if based <= t {
      FrontKept(t, mark, sub, based);
    }
  }

  lemma NoneInside(u: string, v: string, base: string, k: nat)
    requires AttributeBase(base) && Piece(u, base) && 1 <= k < |u|
    ensures BasedHere((u + v)[k..], base)
  {
    NoStartInside(u, base, v, k, HREF_ROOT);
    NoStartInside(u, base, v, k, SRC_ROOT);
  }

  lemma {:induction false} UnmarkedBasedAt(t: string, base: string, mark: string, sub: string, k: nat)
    requires AttributeBase(base) && TurnsBack(mark, sub, base) && Complete(t, base) && k <= |ReplaceAll(t, mark, sub)|
    ensures BasedHere(ReplaceAll(t, mark, sub)[k..], base)
    decreases |t|
  {
    hide BasedHere, StartFree;
    var r := ReplaceAll(t, mark, sub);
    if k == 0 {
      assert t[0..] == t && r[0..] == r;
      UnmarkedHere(t, base, mark, sub);
    } else if mark <= t {
      var v := ReplaceAll(t[|mark|..], mark, sub);
      if k < |sub| {
        NoneInside(sub, v, base, k);
      } else {
        assert r[k..] == v[k - |sub|..];
        CompleteSuffix(t, base, |mark|);
        UnmarkedBasedAt(t[|mark|..], base, mark, sub, k - |sub|);
      }
    } else {
      assert r[k..] == ReplaceAll(t[1..], mark, sub)[k - 1..];
      CompleteSuffix(t, base, 1);
      UnmarkedBasedAt(t[1..], base, mark, sub, k - 1);
    }
  }

  lemma CompleteSuffix(t: string, base: string, n: nat)
    requires Complete(t, base) && n <= |t|
    ensures Complete(t[n..], base)
  {
    forall k | 0 <= k <= |t[n..]|
      ensures BasedHere(t[n..][k..], base)
    {
      DropDrop(t, n, k);
      assert BasedHere(t[n + k..], base);
    }
  }

  /** Turning a placeholder back keeps the text complete. */
  lemma UnmarkedIsComplete(t: string, base: string, mark: string, sub: string)
    requires AttributeBase(base) && TurnsBack(mark, sub, base) && Complete(t, base)
    ensures Complete(ReplaceAll(t, mark, sub), base)
  {
    forall k | 0 <= k <= |ReplaceAll(t, mark, sub)|
      ensures BasedHere(ReplaceAll(t, mark, sub)[k..], base)
    {
      UnmarkedBasedAt(t, base, mark, sub, k);
    }
  }

  /** Every attribute start of any content gets the base path, even where placeholders are misread. */
  lemma AttributesComplete(c: string, base: string)
    requires AttributeBase(base)
    ensures Complete(RewriteAttributes(c, base), base)
  {
    MarkedStages(c, base);
    var t := Scan(c, base, Marked(base));
    ScanIsComplete(c, base, Marked(base));
    UnmarkedIsComplete(t, base, HREF_MARK, HrefBase(base));
    UnmarkedIsComplete(HrefsBack(t, base), base, SRC_MARK, SrcBase(base));
  }

  // ---- The one-pass rewriting ----

  /** The front of complete text is not a plain attribute start. */
  lemma CompleteFront(t: string, base: string)
    requires AttributeBase(base) && t != "" && BasedHere(t, base)
    ensures Front(t, base, Prefixed(base)) == if KindOf(t, base) == NoStart then [t[0]] else Text(KindOf(t, base), base)
  {
  }

  lemma FixStep(c: string, base: string)
    requires c != ""
    ensures Fix(c, base) == Front(c, base, Prefixed(base)) + Fix(Rest(c, base), base)
  {
  }

  /** Text that is complete already is left as it is. */
  lemma {:induction false} CompleteIsFixed(t: string, base: string)
    requires AttributeBase(base) && Complete(t, base)
    ensures Fix(t, base) == t
    decreases |t|
  {
    hide KindOf, Scan;
    if t == "" {
      EmptyFixed(base);
    } else {
      assert t[0..] == t && BasedHere(t[0..], base);
      CompleteSuffix(t, base, |t| - |Rest(t, base)|);
      CompleteIsFixed(Rest(t, base), base);
      FixStep(t, base);
      CompleteFront(t, base);
      RestSplit(t, base);
    }
  }

  lemma EmptyFixed(base: string)
    ensures Fix("", base) == ""
  {
  }

  /** After the rewriting the same starts follow one another, all of them based. */
  lemma FixRest(c: string, base: string)
    requires AttributeBase(base) && c != ""
    ensures var t, k := Fix(c, base), KindOf(c, base);
            && t != "" && Rest(t, base) == Fix(Rest(c, base), base)
            && KindOf(t, base) == match k { case HrefPlain => HrefBased case SrcPlain => SrcBased case _ => k }
            && (k == NoStart ==> t[0] == c[0])
  {
    FixStep(c, base);
    var t, k := Fix(c, base), KindOf(c, base);
    if k == NoStart {
      PlainStays(c, base, Prefixed(base));
      StartShapeOf(t, base);
    }
  }

  function Stripped(c: string, base: string): string {
    Scan(c, base, Style(HREF_ROOT, SRC_ROOT, HREF_ROOT, SRC_ROOT))
  }

  /** Nothing but the base path is put in: without it, content and result read the same. */
  lemma {:induction false} FixOnlyInsertsBase(c: string, base: string)
    requires AttributeBase(base)
    ensures Stripped(Fix(c, base), base) == Stripped(c, base)
    decreases |c|
  {
    if c != "" {
      FixRest(c, base);
      FixOnlyInsertsBase(Rest(c, base), base);
    }
  }

  /** A src, prefixed or plain, whose path reads HREF_PLACEHOLDER and runs straight into another attribute. */
  predicate MeetsAt(c: string, base: string) {
    && c != "" && (KindOf(c, base) == SrcBased || KindOf(c, base) == SrcPlain)
    && HREF_WORD <= Rest(c, base) && StartsAttribute(Rest(c, base)[|HREF_WORD|..])
  }

  /** Such a src stands somewhere, reading the content from left to right. */
  predicate Meets(c: string, base: string)
    decreases |c|
  {
    c != "" && (MeetsAt(c, base) || Meets(Rest(c, base), base))
  }

  lemma FixStartsBased(c: string, base: string)
    requires AttributeBase(base)
    ensures StartsBased(Fix(c, base), base) <==> StartsAttribute(c)
  {
    if c != "" {
      FixRest(c, base);
      StartShapeOf(c, base);
    }
  }

  /** The word stands at the front after the rewriting exactly when it did before. */
  lemma WordInFix(c: string, base: string)
    requires AttributeBase(base)
    ensures HREF_WORD <= Fix(c, base) <==> HREF_WORD <= c
    ensures HREF_WORD <= c ==> Fix(c, base)[|HREF_WORD|..] == Fix(c[|HREF_WORD|..], base)
  {
    assert 'h' !in HREF_WORD && 's' !in HREF_WORD && NUL !in HREF_WORD;
    ScanStart(c, base, Prefixed(base), HREF_WORD);
  }

  lemma FixCollidesAt(c: string, base: string)
    requires AttributeBase(base) && c != ""
    ensures CollidesAt(Fix(c, base), base) <==> MeetsAt(c, base)
  {
    hide Scan;
    var t := Fix(c, base);
    FixRest(c, base);
    if CollidesAt(t, base) {
      CollisionStart(t, base);
    }
    if KindOf(t, base) == SrcBased {
      NoCollisionHere(t, base);
      WordInFix(Rest(c, base), base);
      if HREF_WORD <= Rest(c, base) {
        FixStartsBased(Rest(c, base)[|HREF_WORD|..], base);
      }
    }
  }

  /** The result collides exactly when attributes meet around the word in the content. */
  lemma {:induction false} FixCollidesIff(c: string, base: string)
    requires AttributeBase(base)
    ensures CollidesInScan(Fix(c, base), base) <==> Meets(c, base)
    decreases |c|
  {
    if c != "" {
      FixRest(c, base);
      FixCollidesAt(c, base);
      FixCollidesIff(Rest(c, base), base);
    }
  }

  lemma {:induction false} CollisionsMeet(c: string, base: string)
    requires AttributeBase(base) && CollidesInScan(c, base)
    ensures Meets(c, base)
    decreases |c|
  {
    if CollidesAt(c, base) {
      CollisionStart(c, base);
      NoCollisionHere(c, base);
      StartShapeOf(Rest(c, base)[|HREF_WORD|..], base);
    } else {
      CollisionsMeet(Rest(c, base), base);
    }
  }

  lemma {:induction false} MeetingSpellsWord(c: string, base: string)
    requires Meets(c, base)
    ensures Contains(c, HREF_WORD)
    decreases |c|
  {
    var rest := Rest(c, base);
    var i: nat := 0;
    if MeetsAt(c, base) {
      assert rest[0..] == rest;
    } else {
      MeetingSpellsWord(rest, base);
      i :| 0 <= i <= |rest| && HREF_WORD <= rest[i..];
    }
    var k := RestIndex(c, base, i);
    assert HREF_WORD <= c[k..];
  }

  /** Content that never spells HREF_PLACEHOLDER is out of danger, before and after a pass. */
  lemma {:induction false} WithoutTheWordNoCollision(c: string, base: string)
    requires AttributeBase(base) && !Contains(c, HREF_WORD)
    ensures !Collides(c, base) && !Collides(Fix(c, base), base) && !Meets(c, base)
  {
    CollisionsAtStarts(c, base);
    CollisionsAtStarts(Fix(c, base), base);
    FixCollidesIff(c, base);
    if Meets(c, base) {
      MeetingSpellsWord(c, base);
    }
    if CollidesInScan(c, base) {
      CollisionsMeet(c, base);
    }
  }

  // ---- Replacements between single quotes ----

  predicate Unquoted(x: string) {
    '\'' !in x && StartFree(x)
  }

  /** Text between single quotes, with something in front of the first one. */
  function Quoted(x: string, m: string): string {
    x + Q + m + Q
  }

  lemma QuotedParts(x: string, m: string, v: string)
    ensures Quoted(x, m) + v == x + (Q + (m + (Q + v)))
    ensures |Quoted(x, m)| == |x| + |m| + 2
  {
  }

  predicate NoQuote(w: string) {
    '\'' !in w
  }

  /** Up to its first single quote, text compares only with what stands before that quote. */
  lemma UpToQuote(x: string, v: string, v': string, w: string)
    requires NoQuote(w) && NoQuote(x)
    ensures w <= x + (Q + v) <==> w <= x + (Q + v')
    ensures w + Q <= x + (Q + v) <==> w == x
  {
    var t, t' := x + (Q + v), x + (Q + v');
    if |w| > |x| {
      Mismatch(w, t, |x|);
      Mismatch(w, t', |x|);
      Mismatch(w + Q, t, |x|);
    } else {
      assert t[..|w|] == x[..|w|] == t'[..|w|];
      assert w + Q <= t ==> (w + Q)[|w|] == t[|w|];
    }
  }

  /** A replacement between single quotes changes nothing up to the next single quote. */
  lemma {:induction false} TextStable(z: string, x: string, m: string, m': string, w: string)
    requires NoQuote(x) && NoQuote(w)
    ensures w <= ReplaceAll(z, Quoted(x, m), Quoted(x, m')) <==> w <= z
    ensures w + Q <= ReplaceAll(z, Quoted(x, m), Quoted(x, m')) <==> w + Q <= z
    decreases |z|
  {
    if z != "" {
      var pat, sub := Quoted(x, m), Quoted(x, m');
      if pat <= z {
        var z' := z[|pat|..];
        assert z == pat + z';
        QuotedParts(x, m, z');
        QuotedParts(x, m', ReplaceAll(z', pat, sub));
        UpToQuote(x, m + (Q + z'), m' + (Q + ReplaceAll(z', pat, sub)), w);
        UpToQuote(x, m' + (Q + ReplaceAll(z', pat, sub)), "", w);
      } else if w != "" {
        var v := ReplaceAll(z[1..], pat, sub);
        TextStable(z[1..], x, m, m', w[1..]);
        assert z == [z[0]] + z[1..];
        HeadTail(w, z[0], v);
        HeadTail(w, z[0], z[1..]);
        assert (w + Q)[1..] == w[1..] + Q;
        HeadTail(w + Q, z[0], v);
        HeadTail(w + Q, z[0], z[1..]);
      }
    }
  }

  lemma NoStartAcrossQuote(a: string, v: string)
    requires StartFree(a)
    ensures !StartsAttribute(a + (Q + v))
  {
    NoRootAcrossQuote(a, v, HREF_ROOT);
    NoRootAcrossQuote(a, v, SRC_ROOT);
  }

  lemma NoRootAcrossQuote(a: string, v: string, root: string)
    requires StartFree(a) && (root == HREF_ROOT || root == SRC_ROOT)
    ensures !(root <= a + (Q + v))
  {
    var t := a + (Q + v);
    if |root| <= |a| {
      assert a[0..] == a;
      StartWithin(root, a, Q + v);
    } else {
      assert '\'' !in root && t[|a|] == '\'';
      Mismatch(root, t, |a|);
    }
  }

  /** No attribute starts inside quoted text. */
  lemma NoStartInQuoted(x: string, m: string, v: string, k: nat)
    requires Unquoted(x) && Unquoted(m) && k < |Quoted(x, m)|
    ensures !StartsAttribute((Quoted(x, m) + v)[k..])
  {
    QuotedParts(x, m, v);
    var t := Quoted(x, m) + v;
    if k <= |x| {
      StartFreeSuffix(x, k);
      assert t[k..] == x[k..] + (Q + (m + (Q + v)));
      NoStartAcrossQuote(x[k..], m + (Q + v));
    } else {
      var i := k - |x| - 1;
      StartFreeSuffix(m, i);
      assert t[k..] == m[i..] + (Q + v);
      NoStartAcrossQuote(m[i..], v);
    }
  }

  /** An attribute start after the replacement was one before, with the same text up to the next single quote. */
  lemma {:induction false} StartOrigin(z: string, x: string, m: string, m': string, k: nat) returns (j: nat)
    requires Unquoted(x) && Unquoted(m')
    requires var r := ReplaceAll(z, Quoted(x, m), Quoted(x, m')); k <= |r| && StartsAttribute(r[k..])
    ensures j <= |z|
    ensures ReplaceAll(z, Quoted(x, m), Quoted(x, m'))[k..] == ReplaceAll(z[j..], Quoted(x, m), Quoted(x, m'))
    decreases |z|
  {
    hide StartFree, StartsAttribute;
    var pat, sub := Quoted(x, m), Quoted(x, m');
    var r := ReplaceAll(z, pat, sub);
    if k == 0 {
      assert z[0..] == z && r[0..] == r;
      j := 0;
    } else if pat <= z {
      var v := ReplaceAll(z[|pat|..], pat, sub);
      assert r == sub + v;
      if k < |sub| {
        NoStartInQuoted(x, m', v, k);
        assert false;
      }
      assert r[k..] == v[k - |sub|..];
      var i := StartOrigin(z[|pat|..], x, m, m', k - |sub|);
      DropDrop(z, |pat|, i);
      j := |pat| + i;
    } else {
      var v := ReplaceAll(z[1..], pat, sub);
      assert r[k..] == v[k - 1..];
      var i := StartOrigin(z[1..], x, m, m', k - 1);
      DropDrop(z, 1, i);
      j := 1 + i;
    }
  }

  lemma NoQuoteInBased(base: string)
    requires SafeBase(base)
    ensures NoQuote(HREF_ROOT) && NoQuote(SRC_ROOT) && NoQuote(HrefBase(base)) && NoQuote(SrcBase(base))
            && NoQuote(HREF_WORD)
  {
  }

  lemma BasedKept(z: string, base: string, x: string, m: string, m': string, k: nat)
    requires SafeBase(base) && Complete(z, base) && Unquoted(x) && Unquoted(m')
    requires k <= |ReplaceAll(z, Quoted(x, m), Quoted(x, m'))|
    ensures BasedHere(ReplaceAll(z, Quoted(x, m), Quoted(x, m'))[k..], base)
  {
    var r := ReplaceAll(z, Quoted(x, m), Quoted(x, m'));
    if StartsAttribute(r[k..]) {
      var j := StartOrigin(z, x, m, m', k);
      NoQuoteInBased(base);
      TextStable(z[j..], x, m, m', HREF_ROOT);
      TextStable(z[j..], x, m, m', SRC_ROOT);
      TextStable(z[j..], x, m, m', HrefBase(base));
      TextStable(z[j..], x, m, m', SrcBase(base));
      assert BasedHere(z[j..], base);
    }
  }

  /** A replacement between single quotes keeps the text complete. */
  lemma CompleteKept(z: string, base: string, x: string, m: string, m': string)
    requires SafeBase(base) && Complete(z, base) && Unquoted(x) && Unquoted(m')
    ensures Complete(ReplaceAll(z, Quoted(x, m), Quoted(x, m')), base)
  {
    forall k | 0 <= k <= |ReplaceAll(z, Quoted(x, m), Quoted(x, m'))|
      ensures BasedHere(ReplaceAll(z, Quoted(x, m), Quoted(x, m'))[k..], base)
    {
      BasedKept(z, base, x, m, m', k);
    }
  }

  // ---- What single-quoted replacements do to occurrences of other text ----

  lemma ContainsStep(z: string, w: string)
    requires w != "" && z != ""
    ensures Contains(z, w) <==> w <= z || Contains(z[1..], w)
  {
    if Contains(z, w) {
      var k :| 0 <= k <= |z| && w <= z[k..];
      if k == 0 {
        assert z[0..] == z;
      } else {
        assert z[1..][k - 1..] == z[k..];
      }
    }
    if w <= z {
      assert z[0..] == z;
    } else if Contains(z[1..], w) {
      var k :| 0 <= k <= |z[1..]| && w <= z[1..][k..];
      assert z[k + 1..] == z[1..][k..];
    }
  }

  /** Text in which no occurrence starts can be skipped. */
  lemma {:induction false} ContainsSkip(a: string, v: string, w: string)
    requires w != "" && forall k :: 0 <= k < |a| ==> !(w <= (a + v)[k..])
    ensures Contains(a + v, w) <==> Contains(v, w)
  {
    if a == "" {
      assert a + v == v;
    } else {
      assert (a + v)[0..] == a + v && (a + v)[1..] == a[1..] + v;
      ContainsStep(a + v, w);
      forall k | 0 <= k < |a[1..]|
        ensures !(w <= (a[1..] + v)[k..])
      {
        assert (a[1..] + v)[k..] == (a + v)[k + 1..];
      }
      ContainsSkip(a[1..], v, w);
    }
  }

  /** Text that begins like an attribute or with a NUL occurs after the replacement exactly when it did before. */
  lemma {:induction false} AttributeTextKept(z: string, x: string, m: string, m': string, w: string)
    requires PlainText(x) && PlainText(m) && PlainText(m') && NoQuote(w) && Breaks(w)
    ensures Contains(ReplaceAll(z, Quoted(x, m), Quoted(x, m')), w) <==> Contains(z, w)
    decreases |z|
  {
    hide Contains, StartFree, Breaks;
    var pat, sub := Quoted(x, m), Quoted(x, m');
    BreaksNonempty(w);
    if z == "" {
    } else if pat <= z {
      var z' := z[|pat|..];
      assert z == pat + z';
      AttributeTextKept(z', x, m, m', w);
      SkipQuoted(x, m, z', w);
      SkipQuoted(x, m', ReplaceAll(z', pat, sub), w);
    } else {
      AttributeTextKept(z[1..], x, m, m', w);
      TextStable(z, x, m, m', w);
      ContainsStep(z, w);
      ContainsStep(ReplaceAll(z, pat, sub), w);
      assert ReplaceAll(z, pat, sub)[1..] == ReplaceAll(z[1..], pat, sub);
    }
  }

  lemma BreaksNonempty(w: string)
    requires Breaks(w)
    ensures w != ""
  {
  }

  predicate PlainText(x: string) {
    Unquoted(x) && NUL !in x
  }

  lemma SkipQuoted(x: string, m: string, v: string, w: string)
    requires PlainText(x) && PlainText(m) && Breaks(w)
    ensures Contains(Quoted(x, m) + v, w) <==> Contains(v, w)
  {
    var u := Quoted(x, m);
    forall k | 0 <= k < |u|
      ensures !(w <= (u + v)[k..])
    {
      NoStartInQuoted(x, m, v, k);
      if [NUL] <= w {
        assert u[k] in u && (u + v)[k..][0] == u[k];
        Mismatch(w, (u + v)[k..], 0);
      } else if HREF_ROOT <= w {
        PrefixTrans(HREF_ROOT, w, (u + v)[k..]);
      } else {
        PrefixTrans(SRC_ROOT, w, (u + v)[k..]);
      }
    }
    ContainsSkip(u, v, w);
  }

  lemma NoOtherQuoted(x: string, m: string, v: string, t: string, k: nat)
    requires NoQuote(x) && NoQuote(m) && NoQuote(t) && t != m && k < |x| + 1 + |m|
    ensures !(Quoted("", t) <= (x + (Q + (m + (Q + v))))[k..])
  {
    var s := x + (Q + (m + (Q + v)));
    var w := Quoted("", t);
    assert w[0] == '\'' && w[1..] == t + Q;
    if k == |x| {
      assert s[k..] == ['\''] + (m + (Q + v));
      HeadTail(w, '\'', m + (Q + v));
      UpToQuote(m, v, v, t);
    } else {
      assert s[k..][0] == if k < |x| then x[k] else m[k - |x| - 1];
      Mismatch(w, s[k..], 0);
    }
  }

  lemma SkipOtherQuoted(x: string, m: string, v: string, t: string)
    requires NoQuote(x) && NoQuote(m) && NoQuote(t) && t != m
    ensures Contains(Quoted(x, m) + v, Quoted("", t)) <==> t + Q <= v || Contains(v, Quoted("", t))
  {
    var a, rest := x + (Q + m), Q + v;
    assert Quoted(x, m) + v == a + rest && a + rest == x + (Q + (m + (Q + v)));
    forall k | 0 <= k < |a|
      ensures !(Quoted("", t) <= (a + rest)[k..])
    {
      NoOtherQuoted(x, m, v, t, k);
    }
    ContainsSkip(a, rest, Quoted("", t));
    ContainsStep(rest, Quoted("", t));
    assert rest == ['\''] + v && rest[1..] == v;
    HeadTail(Quoted("", t), '\'', v);
    assert Quoted("", t)[1..] == t + Q;
  }

  /** Another quoted text occurs after the replacement exactly when it did before. */
  lemma {:induction false} QuotedKept(z: string, x: string, m: string, m': string, t: string)
    requires Unquoted(x) && Unquoted(m) && Unquoted(m') && NoQuote(t) && t != m && t != m'
    ensures Contains(ReplaceAll(z, Quoted(x, m), Quoted(x, m')), Quoted("", t)) <==> Contains(z, Quoted("", t))
    decreases |z|
  {
    var pat, sub := Quoted(x, m), Quoted(x, m');
    if z != "" {
      var w := Quoted("", t);
      if pat <= z {
        var z' := z[|pat|..];
        assert z == pat + z';
        QuotedKept(z', x, m, m', t);
        TextStable(z', x, m, m', t);
        SkipOtherQuoted(x, m, z', t);
        SkipOtherQuoted(x, m', ReplaceAll(z', pat, sub), t);
      } else {
        var v := ReplaceAll(z[1..], pat, sub);
        QuotedKept(z[1..], x, m, m', t);
        TextStable(z[1..], x, m, m', t);
        ContainsStep(z, w);
        ContainsStep([z[0]] + v, w);
        assert w[1..] == t + Q && z == [z[0]] + z[1..] && ([z[0]] + v)[1..] == v;
        HeadTail(w, z[0], z[1..]);
        HeadTail(w, z[0], v);
      }
    }
  }

  lemma {:induction false} NulKept(z: string, pat: string, sub: string)
    requires pat != "" && NUL !in pat && NUL !in sub
    ensures NUL in ReplaceAll(z, pat, sub) <==> NUL in z
    decreases |z|
  {
    if z != "" {
      if pat <= z {
        NulKept(z[|pat|..], pat, sub);
        assert z == pat + z[|pat|..];
      } else {
        NulKept(z[1..], pat, sub);
        assert z == [z[0]] + z[1..];
      }
    }
  }

  lemma {:induction false} NothingReplaced(z: string, pat: string, sub: string)
    requires pat != "" && !Contains(z, pat)
    ensures ReplaceAll(z, pat, sub) == z
    decreases |z|
  {
    if z != "" {
      ContainsStep(z, pat);
      NothingReplaced(z[1..], pat, sub);
    }
  }

  lemma {:induction false} ReplacedAppears(z: string, pat: string, sub: string)
    requires pat != "" && sub != "" && Contains(z, pat)
    ensures Contains(ReplaceAll(z, pat, sub), sub)
    decreases |z|
  {
    if z == "" {
      assert false;
    } else if pat <= z {
      assert ReplaceAll(z, pat, sub)[0..] == sub + ReplaceAll(z[|pat|..], pat, sub);
    } else {
      ContainsStep(z, pat);
      ReplacedAppears(z[1..], pat, sub);
      ContainsStep(ReplaceAll(z, pat, sub), sub);
      assert ReplaceAll(z, pat, sub)[1..] == ReplaceAll(z[1..], pat, sub);
    }
  }

  // ---- The guarded replacements ----

  function Once(s: string, x: string, m: string, m': string): string {
    if Contains(s, Quoted(x, m')) then s else ReplaceAll(s, Quoted(x, m), Quoted(x, m'))
  }

  predicate Settled(s: string, x: string, m: string, m': string) {
    Contains(s, Quoted(x, m')) || !Contains(s, Quoted(x, m))
  }

  /** A guarded replacement leaves a text alone exactly when it is settled, and always settles it. */
  lemma OnceSettles(s: string, x: string, m: string, m': string)
    ensures Once(s, x, m, m') == s <==> Settled(s, x, m, m')
    ensures Settled(Once(s, x, m, m'), x, m, m')
  {
    if !Contains(s, Quoted(x, m')) {
      if Contains(s, Quoted(x, m)) {
        ReplacedAppears(s, Quoted(x, m), Quoted(x, m'));
      } else {
        NothingReplaced(s, Quoted(x, m), Quoted(x, m'));
      }
    }
  }

  const WORKER := "/sw.js"
  const SCOPE := "scope: "

  /** The service worker path and scope steps of the rewriting. */
  function WorkerAndScope(s: string, base: string): string {
    Once(Once(s, "", WORKER, base + WORKER), SCOPE, "/", base + "/")
  }

  lemma RewriteParts(c: string, base: string)
    requires base != ""
    ensures RewriteHtml(c, base) == WorkerAndScope(RewriteAttributes(c, base), base)
  {
    assert "'" + "/" + "sw.js'" == Quoted("", WORKER);
    assert "'" + base + "/" + "sw.js'" == Quoted("", base + WORKER);
    assert "scope: '" + "/" + "'" == Quoted(SCOPE, "/");
    assert "scope: '" + base + "/" + "'" == Quoted(SCOPE, base + "/");
  }

  /** Text shorter than an attribute start that follows a slash starts none. */
  lemma StartFreePath(x: string, v: string)
    requires StartFree(x + "/") && |v| < |SRC_ROOT|
    ensures StartFree(x + "/" + v)
  {
    forall k | 0 <= k <= |x + "/" + v|
      ensures !StartsAttribute((x + "/" + v)[k..])
    {
      var t := (x + "/" + v)[k..];
      if k <= |x| {
        StartFreeSuffix(x + "/", k);
        assert (x + "/")[k..] == x[k..] + "/" && t == x[k..] + "/" + v;
        NoStartAcrossSlash(x[k..], v, HREF_ROOT);
        NoStartAcrossSlash(x[k..], v, SRC_ROOT);
      }
    }
  }

  lemma NoQuoteStartFree(t: string)
    requires forall i :: 0 <= i < |t| ==> t[i] != '"'
    ensures StartFree(t)
  {
    forall k | 0 <= k <= |t|
      ensures !StartsAttribute(t[k..])
    {
      Mismatch(HREF_ROOT, t[k..], 5);
      Mismatch(SRC_ROOT, t[k..], 4);
    }
  }

  lemma BaseUnquoted(base: string)
    requires SafeBase(base)
    ensures Unquoted(WORKER) && Unquoted(base + WORKER) && Unquoted(SCOPE) && Unquoted("/") && Unquoted(base + "/")
    ensures WORKER != "/" && WORKER != base + "/" && base + WORKER != "/" && base + WORKER != base + "/"
  {
    NoQuoteStartFree(WORKER);
    NoQuoteStartFree(SCOPE);
    NoQuoteStartFree("/");
    StartFreePath(base, "sw.js");
    assert base + WORKER == base + "/" + "sw.js";
    assert WORKER[|WORKER| - 1] == 's' && (base + WORKER)[|base + WORKER| - 1] == 's';
    assert (base + "/")[|base + "/"| - 1] == '/';
  }

  /** The scope step does not disturb the service worker step. */
  lemma WorkerStaysSettled(s: string, base: string)
    requires SafeBase(base) && Settled(s, "", WORKER, base + WORKER)
    ensures Settled(Once(s, SCOPE, "/", base + "/"), "", WORKER, base + WORKER)
  {
    BaseUnquoted(base);
    QuotedKept(s, SCOPE, "/", base + "/", WORKER);
    QuotedKept(s, SCOPE, "/", base + "/", base + WORKER);
  }

  // ---- What the attribute replacements do to quoted text ----

  predicate Differs(a: string, b: string) {
    exists i :: 0 <= i < |a| && i < |b| && a[i] != b[i]
  }

  /** No occurrence of `w` can overlap the text `u`, whatever stands around it. */
  predicate Foreign(u: string, w: string) {
    && (forall k :: 0 <= k < |u| ==> Differs(w, u[k..]))
    && (forall k :: 0 <= k < |w| ==> Differs(w[k..], u))
  }

  lemma DifferentStart(w: string, u: string, v: string)
    requires Differs(w, u)
    ensures !(w <= u + v)
  {
    var i :| 0 <= i < |w| && i < |u| && w[i] != u[i];
    Mismatch(w, u + v, i);
  }

  /** A replacement of foreign text changes nothing for the rest of an occurrence that starts before it. */
  lemma {:induction false} ForeignFrontKept(z: string, pat: string, sub: string, w: string, k: nat)
    requires pat != "" && sub != "" && Foreign(pat, w) && Foreign(sub, w) && k <= |w|
    ensures w[k..] <= ReplaceAll(z, pat, sub) <==> w[k..] <= z
    decreases |z|
  {
    if z != "" && k < |w| {
      if pat <= z {
        assert z == pat + z[|pat|..];
        DifferentStart(w[k..], pat, z[|pat|..]);
        DifferentStart(w[k..], sub, ReplaceAll(z[|pat|..], pat, sub));
      } else {
        ForeignFrontKept(z[1..], pat, sub, w, k + 1);
        DropDrop(w, k, 1);
        assert z == [z[0]] + z[1..];
        HeadTail(w[k..], z[0], z[1..]);
        HeadTail(w[k..], z[0], ReplaceAll(z[1..], pat, sub));
      }
    }
  }

  lemma ForeignSkip(u: string, v: string, w: string)
    requires w != "" && Foreign(u, w)
    ensures Contains(u + v, w) <==> Contains(v, w)
  {
    forall k | 0 <= k < |u|
      ensures !(w <= (u + v)[k..])
    {
      assert (u + v)[k..] == u[k..] + v;
      DifferentStart(w, u[k..], v);
    }
    ContainsSkip(u, v, w);
  }

  lemma {:induction false} ForeignKept(z: string, pat: string, sub: string, w: string)
    requires pat != "" && sub != "" && w != "" && Foreign(pat, w) && Foreign(sub, w)
    ensures Contains(ReplaceAll(z, pat, sub), w) <==> Contains(z, w)
    decreases |z|
  {
    hide Foreign, Contains;
    if z == "" {
    } else if pat <= z {
      var z' := z[|pat|..];
      assert z == pat + z';
      ForeignKept(z', pat, sub, w);
      ForeignSkip(pat, z', w);
      ForeignSkip(sub, ReplaceAll(z', pat, sub), w);
    } else {
      ForeignKept(z[1..], pat, sub, w);
      ForeignFrontKept(z, pat, sub, w, 0);
      assert w[0..] == w;
      ContainsStep(z, w);
      ContainsStep(ReplaceAll(z, pat, sub), w);
      assert ReplaceAll(z, pat, sub)[1..] == ReplaceAll(z[1..], pat, sub);
    }
  }

  predicate PlainQuoted(x: string, m: string) {
    Unquoted(x) && Unquoted(m) && '/' !in x && NUL !in x && NUL !in m
  }

  /** Quoted text cannot begin inside an attribute start or a placeholder... */
  lemma QuotedNotInside(u: string, base: string, x: string, m: string, k: nat)
    requires SafeBase(base) && PlainQuoted(x, m) && Piece(u, base) && k < |u|
    ensures Differs(Quoted(x, m), u[k..])
  {
    var w := Quoted(x, m);
    var last := |u| - 1 - k;
    assert u[|u| - 1] == '/' || u[|u| - 1] == NUL;
    if last < |x| {
      assert w[last] == x[last] && x[last] in x && u[k..][last] == u[|u| - 1];
    } else {
      NoQuoteInPiece(u, base);
      assert w[|x|] == '\'' && u[k..][|x|] in u;
    }
  }

  lemma NoQuoteInPiece(u: string, base: string)
    requires SafeBase(base) && Piece(u, base)
    ensures NoQuote(u)
  {
  }

  /** ... nor run into one. */
  lemma QuotedNotAcross(u: string, base: string, x: string, m: string, k: nat)
    requires SafeBase(base) && PlainQuoted(x, m) && Piece(u, base) && k < |Quoted(x, m)|
    ensures Differs(Quoted(x, m)[k..], u)
  {
    var w := Quoted(x, m);
    var t := w[k..];
    if u[0] == NUL {
      assert t[0] in w && NUL !in w;
      assert t[0] != u[0];
    } else if |t| <= |u| {
      NoQuoteInPiece(u, base);
      assert t[|t| - 1] == '\'' && u[|t| - 1] in u;
    } else if !Differs(t, u) {
      BaseStartsRoot(base);
      assert u == t[..|u|];
      assert w + "" == w && StartsAttribute(t);
      NoStartInQuoted(x, m, "", k);
    }
  }

  lemma QuotedForeign(u: string, base: string, x: string, m: string)
    requires SafeBase(base) && PlainQuoted(x, m) && Piece(u, base)
    ensures Foreign(u, Quoted(x, m))
  {
    forall k | 0 <= k < |u|
      ensures Differs(Quoted(x, m), u[k..])
    {
      QuotedNotInside(u, base, x, m, k);
    }
    forall k | 0 <= k < |Quoted(x, m)|
      ensures Differs(Quoted(x, m)[k..], u)
    {
      QuotedNotAcross(u, base, x, m, k);
    }
  }

  lemma PieceKeepsQuoted(z: string, base: string, pat: string, sub: string, x: string, m: string)
    requires SafeBase(base) && PlainQuoted(x, m) && Piece(pat, base) && Piece(sub, base)
    ensures Contains(ReplaceAll(z, pat, sub), Quoted(x, m)) <==> Contains(z, Quoted(x, m))
  {
    QuotedForeign(pat, base, x, m);
    QuotedForeign(sub, base, x, m);
    ForeignKept(z, pat, sub, Quoted(x, m));
  }

  /** The attribute replacements neither make nor break the quoted texts the other steps look for. */
  lemma AttributesKeepQuoted(c: string, base: string, x: string, m: string)
    requires SafeBase(base) && PlainQuoted(x, m)
    ensures Contains(RewriteAttributes(c, base), Quoted(x, m)) <==> Contains(c, Quoted(x, m))
  {
    hide Contains, ReplaceAll;
    var s1 := ReplaceAll(c, HrefBase(base), HREF_MARK);
    var s2 := ReplaceAll(s1, SrcBase(base), SRC_MARK);
    var s3 := ReplaceAll(s2, HREF_ROOT, HrefBase(base));
    var s4 := ReplaceAll(s3, SRC_ROOT, SrcBase(base));
    var s5 := ReplaceAll(s4, HREF_MARK, HrefBase(base));
    PieceKeepsQuoted(c, base, HrefBase(base), HREF_MARK, x, m);
    PieceKeepsQuoted(s1, base, SrcBase(base), SRC_MARK, x, m);
    PieceKeepsQuoted(s2, base, HREF_ROOT, HrefBase(base), x, m);
    PieceKeepsQuoted(s3, base, SRC_ROOT, SrcBase(base), x, m);
    PieceKeepsQuoted(s4, base, HREF_MARK, HrefBase(base), x, m);
    PieceKeepsQuoted(s5, base, SRC_MARK, SrcBase(base), x, m);
  }

  /** Neither the service worker step nor the scope step has anything left to do. */
  predicate QuotesSettled(t: string, base: string) {
    Settled(t, "", WORKER, base + WORKER) && Settled(t, SCOPE, "/", base + "/")
  }

  lemma AttributesKeepSettled(c: string, base: string)
    requires SafeBase(base)
    ensures QuotesSettled(RewriteAttributes(c, base), base) <==> QuotesSettled(c, base)
  {
    BaseUnquoted(base);
    assert NUL !in base && NUL !in WORKER && NUL !in SCOPE && '/' !in SCOPE;
    AttributesKeepQuoted(c, base, "", WORKER);
    AttributesKeepQuoted(c, base, "", base + WORKER);
    AttributesKeepQuoted(c, base, SCOPE, "/");
    AttributesKeepQuoted(c, base, SCOPE, base + "/");
  }

  /** Both steps together leave a text alone exactly when it is settled, and always settle it. */
  lemma WorkerAndScopeSettles(s: string, base: string)
    requires SafeBase(base)
    ensures QuotesSettled(WorkerAndScope(s, base), base)
    ensures QuotesSettled(s, base) ==> WorkerAndScope(s, base) == s
  {
    var y := Once(s, "", WORKER, base + WORKER);
    OnceSettles(s, "", WORKER, base + WORKER);
    WorkerStaysSettled(y, base);
    OnceSettles(y, SCOPE, "/", base + "/");
  }

  // ---- Misread NULs as words of the text ----

  predicate ThenNulLed(a: string, w: string, base: string) {
    w == a + [NUL] || w == a + HrefBase(base) || w == a + SrcBase(base)
  }

  predicate SrcPair(w: string, base: string) {
    w == [NUL] + SRC_WORD + SrcBase(base) || w == [NUL] + SRC_WORD + [NUL]
  }

  /** The texts around a NUL that is misread. */
  predicate MisreadWord(w: string, base: string) {
    ThenNulLed(SrcBase(base) + HREF_WORD, w, base) || ThenNulLed([NUL] + HREF_WORD, w, base) || SrcPair(w, base)
  }

  lemma MisreadWordShape(w: string, base: string)
    requires SafeBase(base) && MisreadWord(w, base)
    ensures NoQuote(w) && Breaks(w)
  {
    NoQuoteInBased(base);
    BaseStartsRoot(base);
    if !([NUL] <= w) {
      assert SrcBase(base) <= w;
      PrefixTrans(SRC_ROOT, SrcBase(base), w);
    }
  }

  lemma NulLedWord(a: string, x: string, base: string) returns (w: string)
    requires NulLed(x, base)
    ensures w <= a + x && ThenNulLed(a, w, base)
  {
    var last := if [NUL] <= x then [NUL] else if HrefBase(base) <= x then HrefBase(base) else SrcBase(base);
    w := a + last;
    PrefixSplit(a, last, x);
  }

  lemma TwoPrefixes(a: string, b: string, t: string)
    requires a <= t && b <= t[|a|..]
    ensures t == a + b + t[|a|..][|b|..]
  {
  }

  /** Where a NUL is misread, one of the words stands. */
  lemma MisreadSpells(t: string, base: string) returns (w: string)
    requires AttributeBase(base) && MisreadAt(t, base)
    ensures MisreadWord(w, base) && w <= t
  {
    StartShapeOf(t, base);
    if ReadAsHref(t, base) {
      var lead := if KindOf(t, base) == SrcBased then SrcBase(base) else [NUL];
      TwoPrefixes(lead, HREF_WORD, t);
      w := NulLedWord(lead + HREF_WORD, Rest(t, base)[|HREF_WORD|..], base);
    } else {
      TwoPrefixes([NUL], SRC_WORD, t);
      var x, a := t[1..][|SRC_WORD|..], [NUL] + SRC_WORD;
      w := a + if SrcBase(base) <= x then SrcBase(base) else [NUL];
      PrefixSplit(a, w[|a|..], x);
    }
  }

  lemma {:induction false} MisreadsSpell(c: string, base: string) returns (w: string)
    requires AttributeBase(base) && Misreads(c, base)
    ensures MisreadWord(w, base) && Contains(c, w)
    decreases |c|
  {
    if MisreadAt(c, base) {
      w := MisreadSpells(c, base);
      assert c[0..] == c;
    } else {
      w := MisreadsSpell(Rest(c, base), base);
      var i :| 0 <= i <= |Rest(c, base)| && w <= Rest(c, base)[i..];
      var k := RestIndex(c, base, i);
    }
  }

  /** Where one of the words stands, a NUL is misread, there or at the NUL that ends it. */
  lemma WordMisread(c: string, base: string, w: string)
    requires AttributeBase(base) && MisreadWord(w, base) && w <= c
    ensures Misreads(c, base)
  {
    hide Misreads;
    if SrcPair(w, base) {
      SrcPairMisread(c, base, w);
    } else {
      var lead := if ThenNulLed([NUL] + HREF_WORD, w, base) then [NUL] else SrcBase(base);
      WordThen(lead, w, c, base);
      PrefixRest(lead, c);
      AfterSrc(c[|lead|..], base);
      AfterNul(c[|lead|..], base);
    }
  }

  lemma WordThen(a: string, w: string, c: string, base: string)
    requires AttributeBase(base) && w <= c && ThenNulLed(a + HREF_WORD, w, base)
    ensures a <= c && HREF_WORD <= c[|a|..] && NulLed(c[|a|..][|HREF_WORD|..], base)
  {
    var n := |a + HREF_WORD|;
    var q := w[n..] + c[|w|..];
    assert w == a + HREF_WORD + w[n..];
    assert c == a + (HREF_WORD + q);
    assert c[|a|..] == HREF_WORD + q;
    assert (HREF_WORD + q)[|HREF_WORD|..] == q;
  }

  lemma SrcPairMisread(c: string, base: string, w: string)
    requires AttributeBase(base) && SrcPair(w, base) && w <= c
    ensures Misreads(c, base)
  {
    var a := [NUL] + SRC_WORD;
    var x := w[|a|..] + c[|w|..];
    assert c == [NUL] + (SRC_WORD + x);
    AfterNul(SRC_WORD + x, base);
    assert (SRC_WORD + x)[|SRC_WORD|..] == x;
    SkipWord(SRC_WORD, x, base);
  }

  lemma {:induction false} SpelledMisread(c: string, base: string, w: string, k: nat)
    requires AttributeBase(base) && MisreadWord(w, base) && k <= |c| && w <= c[k..]
    ensures Misreads(c, base)
    decreases |c|
  {
    hide MisreadAt, MisreadWord;
    if k == 0 {
      assert c[0..] == c;
      WordMisread(c, base, w);
    } else {
      var n := |c| - |Rest(c, base)|;
      if k < n {
        NoWordInside(c, base, w, k);
      } else {
        DropDrop(c, n, k - n);
        SpelledMisread(Rest(c, base), base, w, k - n);
      }
    }
  }

  lemma NoWordInside(c: string, base: string, w: string, k: nat)
    requires AttributeBase(base) && MisreadWord(w, base) && c != "" && 1 <= k < |c| - |Rest(c, base)|
    ensures !(w <= c[k..])
  {
    var u := Text(KindOf(c, base), base);
    assert c == u + Rest(c, base);
    if [NUL] <= w {
      BasedWithoutNul(base);
      assert c[k..][0] == u[k] && u[k] in u;
      Mismatch(w, c[k..], 0);
    } else {
      assert SrcBase(base) <= w;
      BaseStartsRoot(base);
      NoStartInside(u, base, Rest(c, base), k, SrcBase(base));
      PrefixTrans(SrcBase(base), w, c[k..]);
    }
  }

  lemma MisreadsIffSpelled(c: string, base: string)
    requires AttributeBase(base)
    ensures Misreads(c, base) <==> exists w :: MisreadWord(w, base) && Contains(c, w)
  {
    if Misreads(c, base) {
      var w := MisreadsSpell(c, base);
    }
    if w :| MisreadWord(w, base) && Contains(c, w) {
      var k :| 0 <= k <= |c| && w <= c[k..];
      SpelledMisread(c, base, w, k);
    }
  }

  /** One guarded replacement keeps completeness, misread NULs and NULs as they are. */
  lemma OnceKeeps(s: string, base: string, x: string, m: string, m': string)
    requires SafeBase(base) && PlainText(x) && PlainText(m) && PlainText(m')
    ensures Complete(s, base) ==> Complete(Once(s, x, m, m'), base)
    ensures Misreads(Once(s, x, m, m'), base) <==> Misreads(s, base)
    ensures NUL in Once(s, x, m, m') <==> NUL in s
  {
    hide Complete, Misreads, MisreadWord;
    var pat, sub := Quoted(x, m), Quoted(x, m');
    if !Contains(s, sub) {
      if Complete(s, base) {
        CompleteKept(s, base, x, m, m');
      }
      NulKept(s, pat, sub);
      MisreadsIffSpelled(s, base);
      MisreadsIffSpelled(ReplaceAll(s, pat, sub), base);
      forall w | MisreadWord(w, base)
        ensures Contains(ReplaceAll(s, pat, sub), w) <==> Contains(s, w)
      {
        MisreadWordShape(w, base);
        AttributeTextKept(s, x, m, m', w);
      }
    }
  }

  lemma BasePlain(base: string)
    requires SafeBase(base)
    ensures PlainText("") && PlainText(WORKER) && PlainText(base + WORKER)
    ensures PlainText(SCOPE) && PlainText("/") && PlainText(base + "/")
  {
    BaseUnquoted(base);
    NoQuoteStartFree("");
  }

  lemma WorkerAndScopeKeeps(s: string, base: string)
    requires SafeBase(base)
    ensures Complete(s, base) ==> Complete(WorkerAndScope(s, base), base)
    ensures Misreads(WorkerAndScope(s, base), base) <==> Misreads(s, base)
    ensures NUL in WorkerAndScope(s, base) <==> NUL in s
  {
    hide Once, Complete, Misreads, PlainText;
    BasePlain(base);
    OnceKeeps(s, base, "", WORKER, base + WORKER);
    OnceKeeps(Once(s, "", WORKER, base + WORKER), base, SCOPE, "/", base + "/");
  }

  /** Applying both steps again changes nothing. */
  lemma WorkerAndScopeTwice(s: string, base: string)
    requires SafeBase(base)
    ensures WorkerAndScope(WorkerAndScope(s, base), base) == WorkerAndScope(s, base)
  {
    WorkerAndScopeSettles(s, base);
    WorkerAndScopeSettles(WorkerAndScope(s, base), base);
  }

  // ---- The whole rewriting ----

  /** Every attribute start of any content gets the base path. */
  lemma RewriteIsComplete(c: string, base: string)
    requires SafeBase(base)
    ensures Complete(RewriteHtml(c, base), base)
  {
    AttributesComplete(c, base);
    RewriteParts(c, base);
    WorkerAndScopeKeeps(RewriteAttributes(c, base), base);
  }

  /** Content without NUL is damaged, a NUL stays behind, exactly when placeholders run together. */
  lemma DamagedIff(c: string, base: string)
    requires SafeBase(base) && NUL !in c
    ensures NUL in RewriteHtml(c, base) <==> Collides(c, base)
  {
    AttributesLeaveNulIff(c, base);
    RewriteParts(c, base);
    WorkerAndScopeKeeps(RewriteAttributes(c, base), base);
  }

  /** The texts that the rewriting leaves alone: complete and settled ones in which no NUL is misread. */
  lemma {:induction false} UnchangedIff(t: string, base: string)
    requires SafeBase(base)
    ensures RewriteHtml(t, base) == t <==> Complete(t, base) && QuotesSettled(t, base) && !Misreads(t, base)
  {
    hide Complete, QuotesSettled, Misreads;
    RewriteParts(t, base);
    AttributesExactIff(t, base);
    AttributesKeepSettled(t, base);
    WorkerAndScopeSettles(RewriteAttributes(t, base), base);
    if Complete(t, base) {
      CompleteIsFixed(t, base);
    }
    RewriteIsComplete(t, base);
  }

  /** Rewriting any content twice is the same as rewriting it once exactly when reading the content itself from left to
    * right shows no NUL, its own or one the first pass would leave, that the second pass would misread.
    */
  lemma {:induction false} RewriteIdempotentIff(c: string, base: string)
    requires SafeBase(base)
    ensures RewriteHtml(RewriteHtml(c, base), base) == RewriteHtml(c, base) <==> !MisreadsAgain(c, base)
  {
    var s := RewriteAttributes(c, base);
    UnchangedIff(RewriteHtml(c, base), base);
    RewriteIsComplete(c, base);
    RewriteParts(c, base);
    WorkerAndScopeSettles(s, base);
    WorkerAndScopeKeeps(s, base);
    AttributesActual(c, base);
    MisreadsAgainIff(c, base);
  }

  lemma MeetsAgain(c: string, base: string)
    requires AttributeBase(base) && NUL !in c && c != ""
    ensures HrefAgain(c, base) <==> MeetsAt(c, base)
    ensures !SrcAgain(c, base)
  {
    assert c[0] in c;
    RestSplit(c, base);
    if HREF_WORD <= Rest(c, base) {
      NoNulInFront(c, Rest(c, base)[|HREF_WORD|..]);
    }
  }

  lemma {:induction false} MeetsAgainIff(c: string, base: string)
    requires AttributeBase(base) && NUL !in c && !CollidesInScan(c, base)
    ensures MisreadsAgain(c, base) <==> Meets(c, base)
    decreases |c|
  {
    if c != "" {
      MisreadIsCollision(c, base);
      MeetsAgain(c, base);
      MeetsAgainIff(Rest(c, base), base);
    }
  }

  /** For content that one pass rewrites correctly this is exactly when no two attributes meet around the word
    * HREF_PLACEHOLDER.
    */
  lemma {:induction false} UndamagedIdempotentIff(c: string, base: string)
    requires SafeBase(base) && NUL !in c && !Collides(c, base)
    ensures RewriteHtml(RewriteHtml(c, base), base) == RewriteHtml(c, base) <==> !Meets(c, base)
  {
    RewriteIdempotentIff(c, base);
    CollisionsAtStarts(c, base);
    MeetsAgainIff(c, base);
  }

  /** Otherwise the second pass damages it. */
  lemma SecondPassDamagesIff(c: string, base: string)
    requires SafeBase(base) && NUL !in c && !Collides(c, base)
    ensures NUL in RewriteHtml(RewriteHtml(c, base), base) <==> Meets(c, base)
  {
    hide Misreads, Collides, CollidesInScan, Meets, WorkerAndScope;
    var t, r := Fix(c, base), RewriteHtml(c, base);
    DamagedIff(c, base);
    DamagedIff(r, base);
    CollisionsAtStarts(r, base);
    MisreadsAreCollisions(r, base);
    AttributesExact(c, base);
    RewriteParts(c, base);
    WorkerAndScopeKeeps(t, base);
    FixHasNoNul(c, base);
    MisreadsAreCollisions(t, base);
    FixCollidesIff(c, base);
  }

  // ---- Which base paths the rewriting copes with ----

  /** A complete text holds no attribute start at all if the base path reads like one: each would bring another. */
  lemma {:induction false} StartsBringStarts(t: string, base: string, k: nat, j: nat)
    requires Complete(t, base) && j <= |base + "/"| && StartsAttribute((base + "/")[j..])
    requires k <= |t| && StartsAttribute(t[k..])
    ensures false
    decreases |t| - k
  {
    assert BasedHere(t[k..], base);
    var lead := if HREF_ROOT <= t[k..] then HREF else SRC;
    var i := |lead| + j;
    assert lead + base + "/" <= t[k..];
    StartAtOffset(t[k..], lead, base, j);
    DropDrop(t, k, i);
    StartsBringStarts(t, base, k + i, j);
  }

  lemma StartAtOffset(t: string, lead: string, base: string, j: nat)
    requires lead + base + "/" <= t && j <= |base + "/"| && StartsAttribute((base + "/")[j..])
    ensures |lead| + j <= |t| && StartsAttribute(t[|lead| + j..])
  {
    var u, i := lead + base + "/", |lead| + j;
    assert u[i..] == (base + "/")[j..];
    assert t == u + t[|u|..];
    assert t[i..] == u[i..] + t[|u|..];
    StartWithin(if HREF_ROOT <= u[i..] then HREF_ROOT else SRC_ROOT, u[i..], t[|u|..]);
  }

  /** Replacements whose pattern begins with a character that is not in the text's head leave the head alone. */
  lemma HeadKept(head: string, v: string, pat: string, sub: string)
    requires pat != "" && pat[0] !in head
    ensures ReplaceAll(head + v, pat, sub) == head + ReplaceAll(v, pat, sub)
  {
    forall k | 0 <= k < |head|
      ensures !(pat <= (head + v)[k..])
    {
      assert (head + v)[k..][0] == head[k];
      Mismatch(pat, (head + v)[k..], 0);
    }
    Pass(head, v, pat, sub);
  }

  lemma ShortUnreplaced(c: string, pat: string, sub: string)
    requires |c| < |pat|
    ensures ReplaceAll(c, pat, sub) == c
  {
    NothingReplaced(c, pat, sub);
  }

  lemma LonePlain(base: string)
    requires PlainBase(base)
    ensures ReplaceAll(HREF_ROOT, HREF_ROOT, HrefBase(base)) == HREF_ROOT + (base[1..] + "/")
  {
    assert HREF_ROOT + "" == HREF_ROOT;
    Hit("", HREF_ROOT, HrefBase(base));
    assert base == "/" + base[1..];
    assert HREF + ("/" + base[1..]) + "/" == HREF_ROOT + (base[1..] + "/");
  }

  /** Rewriting a lone plain href leaves an attribute start, whatever the base path. */
  lemma LoneHref(base: string) returns (v: string)
    requires PlainBase(base)
    ensures RewriteAttributes(HREF_ROOT, base) == HREF_ROOT + v
  {
    ShortUnreplaced(HREF_ROOT, HrefBase(base), HREF_MARK);
    ShortUnreplaced(HREF_ROOT, SrcBase(base), SRC_MARK);
    LonePlain(base);
    var v3 := base[1..] + "/";
    HeadKept(HREF_ROOT, v3, SRC_ROOT, SrcBase(base));
    var v4 := ReplaceAll(v3, SRC_ROOT, SrcBase(base));
    HeadKept(HREF_ROOT, v4, HREF_MARK, HrefBase(base));
    var v5 := ReplaceAll(v4, HREF_MARK, HrefBase(base));
    HeadKept(HREF_ROOT, v5, SRC_MARK, SrcBase(base));
    v := ReplaceAll(v5, SRC_MARK, SrcBase(base));
  }

  lemma OnceKeepsHead(head: string, v: string, x: string, m: string, m': string) returns (v': string)
    requires Quoted(x, m)[0] !in head
    ensures Once(head + v, x, m, m') == head + v'
  {
    if Contains(head + v, Quoted(x, m')) {
      v' := v;
    } else {
      HeadKept(head, v, Quoted(x, m), Quoted(x, m'));
      v' := ReplaceAll(v, Quoted(x, m), Quoted(x, m'));
    }
  }

  lemma IncompleteWithStart(v: string, base: string)
    requires !StartFree(base + "/")
    ensures !Complete(HREF_ROOT + v, base)
  {
    if Complete(HREF_ROOT + v, base) {
      var j :| 0 <= j <= |base + "/"| && StartsAttribute((base + "/")[j..]);
      assert (HREF_ROOT + v)[0..] == HREF_ROOT + v;
      StartsBringStarts(HREF_ROOT + v, base, 0, j);
    }
  }

  /** The attribute rewriting is complete on all content exactly when the base path, with its slash, does not itself
    * read like an attribute start; quotes as such do no harm.
    */
  lemma {:induction false} AttributeBaseIff(base: string)
    requires PlainBase(base)
    ensures (forall c :: Complete(RewriteAttributes(c, base), base))
            <==> StartFree(base + "/")
  {
    if StartFree(base + "/") {
      forall c: string
        ensures Complete(RewriteAttributes(c, base), base)
      {
        AttributesComplete(c, base);
      }
    } else {
      var v := LoneHref(base);
      IncompleteWithStart(v, base);
      assert !Complete(RewriteAttributes(HREF_ROOT, base), base);
    }
  }

  /** The same holds of the whole rewriting, for base paths without single quotes. */
  lemma {:induction false} SafeBaseIff(base: string)
    requires PlainBase(base) && '\'' !in base
    ensures (forall c :: Complete(RewriteHtml(c, base), base))
            <==> StartFree(base + "/")
  {
    if StartFree(base + "/") {
      forall c: string
        ensures Complete(RewriteHtml(c, base), base)
      {
        RewriteIsComplete(c, base);
      }
    } else {
      var v := LoneHref(base);
      RewriteParts(HREF_ROOT, base);
      v := OnceKeepsHead(HREF_ROOT, v, "", WORKER, base + WORKER);
      v := OnceKeepsHead(HREF_ROOT, v, SCOPE, "/", base + "/");
      IncompleteWithStart(v, base);
      assert !Complete(RewriteHtml(HREF_ROOT, base), base);
    }
  }

  /** The condition is not idle: with the base path /b this short content survives one pass
    * and is damaged by the second.
    */
  lemma {:induction false} SecondPassDamages()
    ensures var base, c := "/b", SRC_ROOT + HREF_WORD + HREF_ROOT;
            && SafeBase(base) && NUL !in c && !Collides(c, base) && Meets(c, base)
            && NUL !in RewriteHtml(c, base) && NUL in RewriteHtml(RewriteHtml(c, base), base)
  {
    var base, c := "/b", SRC_ROOT + HREF_WORD + HREF_ROOT;
    NoQuoteStartFree(base + "/");
    forall k | 0 <= k <= |c|
      ensures !CollidesAt(c[k..], base)
    {
      TooShortToCollide(c[k..], base);
    }
    DamagedIff(c, base);
    PlainWordFixed(base);
    CollisionsAtStarts(Fix(c, base), base);
    FixCollidesIff(c, base);
    SecondPassDamagesIff(c, base);
  }

  lemma TooShortToCollide(t: string, base: string)
    requires PlainBase(base) && |t| < 32
    ensures !CollidesAt(t, base)
  {
  }

  lemma PlainWordFixed(base: string)
    requires SafeBase(base) && base[1] != 'H'
    ensures Collides(Fix(SRC_ROOT + HREF_WORD + HREF_ROOT, base), base)
  {
    var rest := HREF_WORD + HREF_ROOT;
    assert rest[0] == 'H';
    PlainSrcFixed(rest, base);
    WordThenHref(base);
    CollisionItself(base);
    Associate(SRC_ROOT, HREF_WORD, HREF_ROOT);
    Associate(SrcBase(base), HREF_WORD, HrefBase(base));
  }

  lemma Associate(a: string, b: string, c: string)
    ensures a + b + c == a + (b + c)
  {
  }

  lemma CollisionItself(base: string)
    ensures Collides(SrcBase(base) + HREF_WORD + HrefBase(base), base)
  {
    var t := SrcBase(base) + HREF_WORD + HrefBase(base);
    assert t[|SrcBase(base) + HREF_WORD|..] == HrefBase(base);
    assert t[0..] == t;
  }

  lemma PlainSrcFixed(rest: string, base: string)
    requires SafeBase(base) && rest != "" && base[1] != rest[0]
    ensures Fix(SRC_ROOT + rest, base) == SrcBase(base) + Fix(rest, base)
  {
    var c := SRC_ROOT + rest;
    assert c[0] == 's' && c[6] == rest[0] && SrcBase(base)[6] == base[1];
    Mismatch(SrcBase(base), c, 6);
    assert KindOf(c, base) == SrcPlain;
    FixStep(c, base);
    assert c[|SRC_ROOT|..] == rest;
  }

  lemma WordThenHref(base: string)
    requires SafeBase(base)
    ensures Fix(HREF_WORD + HREF_ROOT, base) == HREF_WORD + HrefBase(base)
  {
    hide Scan, KindOf;
    var rest := HREF_WORD + HREF_ROOT;
    assert 'h' !in HREF_WORD && 's' !in HREF_WORD && NUL !in HREF_WORD;
    ScanStart(rest, base, Prefixed(base), HREF_WORD);
    assert rest[|HREF_WORD|..] == HREF_ROOT;
    PlainHrefFixed(base);
    var t := Fix(rest, base);
    assert t == HREF_WORD + t[|HREF_WORD|..];
  }

  lemma PlainHrefFixed(base: string)
    requires SafeBase(base)
    ensures Fix(HREF_ROOT, base) == HrefBase(base)
  {
    assert |HrefBase(base)| > |HREF_ROOT|;
    assert KindOf(HREF_ROOT, base) == HrefPlain;
    FixStep(HREF_ROOT, base);
    assert HREF_ROOT[|HREF_ROOT|..] == "";
    assert Fix("", base) == "";
  }
}
