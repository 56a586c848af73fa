/** What the attribute replacements make of their own result, told from the content they started with. */
module HtmlSecondPass {
  import opened HtmlRewrite

  /** An attribute start or a NUL at the front: whatever happens to it, a prefixed start or a NUL is what it leaves. */
  predicate Breaks(c: string) {
    StartsAttribute(c) || [NUL] <= c
  }

  /** A src, prefixed or plain, or a NUL, before HREF_PLACEHOLDER and another attribute start or NUL. */
  predicate HrefAgain(c: string, base: string) {
    && c != "" && (KindOf(c, base) == SrcBased || KindOf(c, base) == SrcPlain || c[0] == NUL)
    && HREF_WORD <= Rest(c, base) && Breaks(Rest(c, base)[|HREF_WORD|..])
  }

  predicate KeepsNulAgain(c: string, base: string) {
    KindOf(c, base) == SrcBased || KindOf(c, base) == SrcPlain || ([NUL] <= c && !HrefAgain(c, base))
  }

  predicate SrcAgain(c: string, base: string) {
    [NUL] <= c && SRC_WORD <= c[1..] && KeepsNulAgain(c[1..][|SRC_WORD|..], base)
  }

  /** Reading the content from left to right, some NUL of what one pass makes of it would be misread by the next. */
  predicate MisreadsAgain(c: string, base: string)
    decreases |c|
  {
    c != "" &&
    if !MisreadAt(c, base) then HrefAgain(c, base) || SrcAgain(c, base) || MisreadsAgain(Rest(c, base), base)
    else
      var x := PastWord(c, base);
      if [NUL] <= x then SrcThenWord(c, x[1..], base) || MisreadsAgain(x[1..], base)
      else MisreadsAgain([NUL] + Rest(x, base), base)
  }

  /** A prefixed src that a misread NUL leaves behind may stand before the word, too. */
  predicate SrcThenWord(c: string, rest: string, base: string) {
    !ReadAsHref(c, base) && HREF_WORD <= rest && Breaks(rest[|HREF_WORD|..])
  }

  // ---- The result, from the front ----

  lemma ActualFront(c: string, base: string)
    requires AttributeBase(base)
    ensures c == "" ==> Actual(c, base) == ""
    ensures c != "" && KindOf(c, base) == NoStart && c[0] != NUL ==> Actual(c, base) == [c[0]] + Actual(c[1..], base)
    ensures Breaks(c) ==> NulLed(Actual(c, base), base)
    ensures Breaks(c) ==> c != "" && (c[0] == 'h' || c[0] == 's' || c[0] == NUL)
  {
    StartShapeOf(c, base);
    if Breaks(c) && !MisreadAt(c, base) {
      assert Actual(c, base)[0] == Front(c, base, Prefixed(base))[0];
    }
  }

  /** Text without the first letters of attributes reads the same at the front of content and result. */
  lemma {:induction false} ActualStart(c: string, base: string, w: string)
    requires AttributeBase(base) && 'h' !in w && 's' !in w && NUL !in w
    ensures w <= Actual(c, base) <==> w <= c
    ensures w <= c ==> Actual(c, base)[|w|..] == Actual(c[|w|..], base)
  {
    hide KindOf, StartFree, StartsAttribute, PlainBase, Actual, Rest;
    ActualFront(c, base);
    var t := Actual(c, base);
    if w == "" {
      assert t[0..] == t && c[0..] == c;
    } else if c != "" && KindOf(c, base) == NoStart && c[0] != NUL {
      var v := Actual(c[1..], base);
      ActualStart(c[1..], base, w[1..]);
      assert c == [c[0]] + c[1..];
      HeadTail(w, c[0], v);
      HeadTail(w, c[0], c[1..]);
      if w <= c {
        DropPastHead(c[0], v, |w|);
        DropPastHead(c[0], c[1..], |w|);
      }
    } else if c != "" {
      NoPlainFront(c, base);
    }
  }

  lemma NoPlainFront(c: string, base: string)
    requires AttributeBase(base) && c != "" && (KindOf(c, base) != NoStart || c[0] == NUL)
    ensures c[0] == 'h' || c[0] == 's' || c[0] == NUL
    ensures var t := Actual(c, base); t != "" && (t[0] == 'h' || t[0] == 's' || t[0] == NUL)
  {
    StartShapeOf(c, base);
    ActualFront(c, base);
    assert Breaks(c);
  }

  /** The word before something. */
  lemma WordAgain(c: string, base: string, w: string)
    requires AttributeBase(base) && (w == HREF_WORD || w == SRC_WORD)
    ensures w <= Actual(c, base) <==> w <= c
    ensures w <= c ==> Actual(c, base)[|w|..] == Actual(c[|w|..], base)
  {
    assert 'h' !in w && 's' !in w && NUL !in w;
    ActualStart(c, base, w);
  }

  /** Elsewhere no attribute start appears. */
  lemma PlainAgain(c: string, base: string)
    requires AttributeBase(base) && c != "" && !Breaks(c)
    ensures KindOf(Actual(c, base), base) == NoStart && Rest(Actual(c, base), base) == Actual(c[1..], base)
  {
    StartShapeOf(c, base);
    ActualFront(c, base);
    var t, v := Actual(c, base), Actual(c[1..], base);
    RootAgain(c, base, HREF_ROOT);
    RootAgain(c, base, SRC_ROOT);
    StartShapeOf(t, base);
    assert t[1..] == v;
  }

  lemma RootAgain(c: string, base: string, root: string)
    requires AttributeBase(base) && c != "" && !Breaks(c) && (root == HREF_ROOT || root == SRC_ROOT)
    ensures !(root <= Actual(c, base))
  {
    hide StartFree, PlainBase, Actual, Rest;
    StartShapeOf(c, base);
    ActualFront(c, base);
    RootTail(root);
    ActualStart(c[1..], base, root[1..]);
    HeadTail(root, c[0], Actual(c[1..], base));
    HeadTail(root, c[0], c[1..]);
    assert c == [c[0]] + c[1..];
  }

  lemma NulLedAgain(c: string, base: string)
    requires AttributeBase(base)
    ensures NulLed(Actual(c, base), base) <==> Breaks(c)
  {
    ActualFront(c, base);
    if c != "" && !Breaks(c) {
      PlainAgain(c, base);
      StartShapeOf(c, base);
      StartShapeOf(Actual(c, base), base);
      BaseStartsRoot(base);
    }
  }

  /** The word before a prefixed start or a NUL, in the result. */
  lemma BreaksAfterWord(c: string, base: string)
    requires AttributeBase(base)
    ensures HREF_WORD <= Actual(c, base) && NulLed(Actual(c, base)[|HREF_WORD|..], base)
            <==> HREF_WORD <= c && Breaks(c[|HREF_WORD|..])
  {
    WordAgain(c, base, HREF_WORD);
    if HREF_WORD <= c {
      NulLedAgain(c[|HREF_WORD|..], base);
    }
  }

  // ---- Misread NULs, piece by piece ----

  lemma {:induction false} SkipText(w: string, q: string, base: string)
    requires AttributeBase(base) && 'h' !in w && 's' !in w && NUL !in w
    ensures Misreads(w + q, base) <==> Misreads(q, base)
  {
    var t := w + q;
    if w == "" {
      assert t == q;
    } else {
      StartShapeOf(t, base);
      assert t[0] == w[0] && t[1..] == w[1..] + q && w[0] in w;
      assert !MisreadAt(t, base);
      SkipText(w[1..], q, base);
    }
  }

  lemma SkipWord(w: string, q: string, base: string)
    requires AttributeBase(base) && (w == HREF_WORD || w == SRC_WORD)
    ensures Misreads(w + q, base) <==> Misreads(q, base)
  {
    assert 'h' !in w && 's' !in w && NUL !in w;
    SkipText(w, q, base);
  }

  lemma AfterHref(q: string, base: string)
    requires AttributeBase(base)
    ensures Misreads(HrefBase(base) + q, base) <==> Misreads(q, base)
  {
    var t := HrefBase(base) + q;
    assert KindOf(t, base) == HrefBased && Rest(t, base) == q && t[0] == 'h';
  }

  lemma AfterSrc(q: string, base: string)
    requires AttributeBase(base)
    ensures Misreads(SrcBase(base) + q, base)
            <==> (HREF_WORD <= q && NulLed(q[|HREF_WORD|..], base)) || Misreads(q, base)
  {
    var t := SrcBase(base) + q;
    assert t[0] == 's' && HrefBase(base)[0] == 'h';
    assert KindOf(t, base) == SrcBased && Rest(t, base) == q;
  }

  lemma AfterNul(q: string, base: string)
    requires AttributeBase(base)
    ensures KindOf([NUL] + q, base) == NoStart && Rest([NUL] + q, base) == q
    ensures Misreads([NUL] + q, base)
            <==> (HREF_WORD <= q && NulLed(q[|HREF_WORD|..], base))
                 || (SRC_WORD <= q && KeepsNul(q[|SRC_WORD|..], base))
                 || Misreads(q, base)
  {
    var t := [NUL] + q;
    StartShapeOf(t, base);
    assert t[1..] == q;
  }

  lemma KeepsNulAfterPass(c: string, base: string)
    requires AttributeBase(base)
    ensures KeepsNul(Actual(c, base), base) <==> KeepsNulAgain(c, base)
  {
    var t := Actual(c, base);
    if c == "" {
    } else if MisreadAt(c, base) {
      KeepsNulMisread(c, base);
    } else if KindOf(c, base) != NoStart {
      StartShapeOf(c, base);
      assert t[0] == Front(c, base, Prefixed(base))[0];
    } else if c[0] == NUL {
      var q := Actual(c[1..], base);
      assert t == [NUL] + q;
      AfterNul(q, base);
      BreaksAfterWord(c[1..], base);
    } else {
      StartShapeOf(c, base);
      PlainAgain(c, base);
      StartShapeOf(t, base);
      BaseStartsRoot(base);
      PrefixTrans(SRC_ROOT, SrcBase(base), t);
    }
  }

  /** What a misread NUL leaves, split at the front. */
  function Left(c: string, base: string): string
    requires MisreadAt(c, base)
  {
    var x := PastWord(c, base);
    if [NUL] <= x then Actual(x[1..], base) else WordOf(x, base) + Actual([NUL] + Rest(x, base), base)
  }

  lemma MisreadParts(c: string, base: string)
    requires AttributeBase(base) && MisreadAt(c, base)
    ensures Actual(c, base) == Mess(c, base) + Left(c, base)
    ensures KindOf(c, base) == SrcBased || [NUL] <= c
  {
  }

  lemma KeepsNulMisread(c: string, base: string)
    requires AttributeBase(base) && MisreadAt(c, base)
    ensures KeepsNul(Actual(c, base), base) <==> KeepsNulAgain(c, base)
  {
    MisreadParts(c, base);
    var t, y := Actual(c, base), Left(c, base);
    StartShapeOf(c, base);
    if KindOf(c, base) == SrcBased {
      BrokenIsNotHref(y, base);
    } else if ReadAsHref(c, base) {
      assert t[0] == 'h';
      NulLedBreaks(Rest(c, base)[|HREF_WORD|..], base);
    } else {
      assert SrcBase(base) <= t;
      WordsDiffer(c[1..]);
    }
  }

  lemma NulLedBreaks(c: string, base: string)
    requires AttributeBase(base) && NulLed(c, base)
    ensures Breaks(c)
  {
    BaseStartsRoot(base);
    PrefixTrans(HREF_ROOT, HrefBase(base), c);
    PrefixTrans(SRC_ROOT, SrcBase(base), c);
  }

  lemma WordsDiffer(c: string)
    requires SRC_WORD <= c
    ensures !(HREF_WORD <= c)
  {
    assert c[0] == SRC_WORD[0] == 'S' && HREF_WORD[0] == 'H';
  }

  lemma BrokenIsNotHref(y: string, base: string)
    requires AttributeBase(base)
    ensures var t := [NUL] + SRC_WORD + HrefBase(base) + y;
            [NUL] <= t && !ReadAsHref(t, base) && !ReadAsSrc(t, base) && !(SrcBase(base) <= t)
    ensures var t := [NUL] + SRC_WORD + HrefBase(base) + y; Misreads(t, base) <==> Misreads(y, base)
  {
    var q := SRC_WORD + (HrefBase(base) + y);
    var t := [NUL] + SRC_WORD + HrefBase(base) + y;
    assert t == [NUL] + q;
    AfterNul(q, base);
    WordsDiffer(q);
    assert q[|SRC_WORD|..] == HrefBase(base) + y;
    assert (HrefBase(base) + y)[0] == 'h';
    SkipWord(SRC_WORD, HrefBase(base) + y, base);
    AfterHref(y, base);
    assert t[1..] == q;
  }

  // ---- The next pass ----

  lemma MisreadAgain(c: string, base: string)
    requires AttributeBase(base) && MisreadAt(c, base)
    ensures var x := PastWord(c, base);
            && (Misreads(Actual(c, base), base) <==>
                if [NUL] <= x then SrcThenWord(c, x[1..], base) || Misreads(Actual(x[1..], base), base)
                else Misreads(Actual([NUL] + Rest(x, base), base), base))
  {
    hide Misreads, KindOf;
    MisreadParts(c, base);
    var x, y := PastWord(c, base), Left(c, base);
    LeftMisreads(c, base);
    if KindOf(c, base) == SrcBased {
      BrokenIsNotHref(y, base);
    } else if ReadAsHref(c, base) {
      AfterHref(y, base);
    } else {
      AfterSrc(y, base);
      if [NUL] <= x {
        BreaksAfterWord(x[1..], base);
      }
    }
  }

  lemma LeftMisreads(c: string, base: string)
    requires AttributeBase(base) && MisreadAt(c, base)
    ensures var x := PastWord(c, base);
            if [NUL] <= x then Left(c, base) == Actual(x[1..], base)
            else (Misreads(Left(c, base), base) <==> Misreads(Actual([NUL] + Rest(x, base), base), base))
    ensures !ReadAsHref(c, base) && !([NUL] <= PastWord(c, base)) ==> !(HREF_WORD <= Left(c, base))
  {
    var x := PastWord(c, base);
    if !([NUL] <= x) {
      SkipWord(WordOf(x, base), Actual([NUL] + Rest(x, base), base), base);
      if !ReadAsHref(c, base) {
        assert SrcBase(base) <= x && x[0] == 's';
        WordsDiffer(Left(c, base));
      }
    }
  }

  lemma ReadAgain(c: string, base: string)
    requires AttributeBase(base) && c != "" && !MisreadAt(c, base)
    ensures Misreads(Actual(c, base), base)
            <==> HrefAgain(c, base) || SrcAgain(c, base) || Misreads(Actual(Rest(c, base), base), base)
  {
    var k, q := KindOf(c, base), Actual(Rest(c, base), base);
    StartShapeOf(c, base);
    if k == HrefBased || k == HrefPlain {
      AfterHref(q, base);
    } else if k == SrcBased || k == SrcPlain {
      AfterSrc(q, base);
      BreaksAfterWord(Rest(c, base), base);
    } else if c[0] == NUL {
      ReadNulAgain(c, base);
    } else {
      PlainAgain(c, base);
      assert Actual(c, base)[0] == c[0];
    }
  }

  lemma ReadNulAgain(c: string, base: string)
    requires AttributeBase(base) && [NUL] <= c && !MisreadAt(c, base)
    ensures Misreads(Actual(c, base), base)
            <==> HrefAgain(c, base) || SrcAgain(c, base) || Misreads(Actual(Rest(c, base), base), base)
  {
    StartShapeOf(c, base);
    AfterNul(Actual(c[1..], base), base);
    BreaksAfterWord(c[1..], base);
    WordAgain(c[1..], base, SRC_WORD);
    if SRC_WORD <= c[1..] {
      KeepsNulAfterPass(c[1..][|SRC_WORD|..], base);
    }
  }

  /** Whether a second pass misreads a NUL can be told from the content itself. */
  lemma {:induction false} MisreadsAgainIff(c: string, base: string)
    requires AttributeBase(base)
    ensures Misreads(Actual(c, base), base) <==> MisreadsAgain(c, base)
    decreases |c|
  {
    hide Misreads, HrefAgain, SrcAgain, SrcThenWord, MisreadAt, Actual;
    if c == "" {
      NothingMisread(base);
    } else if MisreadAt(c, base) {
      MisreadAgain(c, base);
      var x := PastWord(c, base);
      if [NUL] <= x {
        MisreadsAgainIff(x[1..], base);
      } else {
        MisreadsAgainIff([NUL] + Rest(x, base), base);
      }
    } else {
      ReadAgain(c, base);
      MisreadsAgainIff(Rest(c, base), base);
    }
  }

  lemma NothingMisread(base: string)
    ensures !Misreads(Actual("", base), base)
  {
  }
}
