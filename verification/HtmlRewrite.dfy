/** Prefixing absolute asset URLs in HTML with a base path: a chain of replacements through placeholders,
  * against a one-pass reference.
  */
module HtmlRewrite {
  import opened Sequences

  const NUL: char := '\0'
  const HREF := "href=\""
  const SRC := "src=\""
  const HREF_WORD := "HREF_PLACEHOLDER"
  const SRC_WORD := "SRC_PLACEHOLDER"
  const HREF_TAIL := HREF_WORD + [NUL]
  const HREF_MARK := [NUL] + HREF_TAIL
  const SRC_MARK := [NUL] + SRC_WORD + [NUL]
  const HREF_ROOT := HREF + "/"
  const SRC_ROOT := SRC + "/"

  /** Replaces the occurrences of `pat` from left to right, without overlaps. */
  function ReplaceAll(s: string, pat: string, sub: string): string
    requires pat != ""
    decreases |s|
  {
    if s == "" then ""
    else if pat <= s then sub + ReplaceAll(s[|pat|..], pat, sub)
    else [s[0]] + ReplaceAll(s[1..], pat, sub)
  }

  predicate Contains(s: string, p: string) {
    exists k :: 0 <= k <= |s| && p <= s[k..]
  }

  function HrefBase(base: string): string {
    HREF + base + "/"
  }

  function SrcBase(base: string): string {
    SRC + base + "/"
  }

  /** The six replacements of asset attributes. */
  function RewriteAttributes(s: string, base: string): string {
    var s1 := ReplaceAll(s, HrefBase(base), HREF_MARK);
    var s2 := ReplaceAll(s1, SrcBase(base), SRC_MARK);
    var s3 := ReplaceAll(s2, HREF_ROOT, HrefBase(base));
    var s4 := ReplaceAll(s3, SRC_ROOT, SrcBase(base));
    var s5 := ReplaceAll(s4, HREF_MARK, HrefBase(base));
    ReplaceAll(s5, SRC_MARK, SrcBase(base))
  }

  /** Rewrites `quote` + "/" + tail to `quote` + base + "/" + tail unless the result is there already. */
  function RewriteOnce(s: string, base: string, lead: string, tail: string): string
    requires lead != ""
  {
    if Contains(s, lead + base + "/" + tail) then s else ReplaceAll(s, lead + "/" + tail, lead + base + "/" + tail)
  }

  function RewriteHtml(content: string, base: string): string {
    if base == "" then content
    else
      var s := RewriteAttributes(content, base);
      var s' := RewriteOnce(s, base, "'", "sw.js'");
      RewriteOnce(s', base, "scope: '", "'")
  }

  predicate StartsAttribute(p: string) {
    HREF_ROOT <= p || SRC_ROOT <= p
  }

  /** No attribute starts anywhere in the text. */
  predicate StartFree(t: string) {
    forall k :: 0 <= k <= |t| ==> !StartsAttribute(t[k..])
  }

  /** A base path as the header check lets it through: it starts with a slash, ends with none, and holds no NUL. */
  predicate PlainBase(base: string) {
    base != "" && base[0] == '/' && base[|base| - 1] != '/' && NUL !in base
  }

  /** A base path the attribute rewriting can cope with: besides, it does not itself read like an attribute start. */
  predicate AttributeBase(base: string) {
    PlainBase(base) && StartFree(base + "/")
  }

  // ---- One-pass reference ----

  /** The attribute starts: with the base path in place already, or plain. */
  datatype Kind = HrefBased | SrcBased | HrefPlain | SrcPlain | NoStart

  function Text(k: Kind, base: string): string {
    match k
    case HrefBased => HrefBase(base)
    case SrcBased => SrcBase(base)
    case HrefPlain => HREF_ROOT
    case SrcPlain => SRC_ROOT
    case NoStart => ""
  }

  /** The attribute start at the front of the content, the based forms first. */
  function KindOf(c: string, base: string): (k: Kind)
    ensures Text(k, base) <= c
    ensures k.NoStart? || |Text(k, base)| > 0
  {
    if HrefBase(base) <= c then HrefBased
    else if SrcBase(base) <= c then SrcBased
    else if HREF_ROOT <= c then HrefPlain
    else if SRC_ROOT <= c then SrcPlain
    else NoStart
  }

  function Rest(c: string, base: string): (rest: string)
    requires c != ""
    ensures |rest| < |c|
  {
    if KindOf(c, base).NoStart? then c[1..] else c[|Text(KindOf(c, base), base)|..]
  }

  /** What each kind of attribute start is written as. */
  datatype Style = Style(hb: string, sb: string, h: string, s: string) {
    function Of(k: Kind): string {
      match k
      case HrefBased => hb
      case SrcBased => sb
      case HrefPlain => h
      case SrcPlain => s
      case NoStart => ""
    }
  }

  /** What is written for the front of the content: an attribute start as the style says, or one character. */
  function Front(c: string, base: string, f: Style): string
    requires c != ""
  {
    if KindOf(c, base).NoStart? then [c[0]] else f.Of(KindOf(c, base))
  }

  /** Writes the content with each attribute start replaced as the style says. */
  function Scan(c: string, base: string, f: Style): string
    decreases |c|
  {
    if c == "" then "" else Front(c, base, f) + Scan(Rest(c, base), base, f)
  }

  function Prefixed(base: string): Style {
    Style(HrefBase(base), SrcBase(base), HrefBase(base), SrcBase(base))
  }

  /** The intended result: every plain attribute start gets the base path, the prefixed ones stay. */
  function Fix(c: string, base: string): string {
    Scan(c, base, Prefixed(base))
  }

  /** The strings that stand for attribute starts in some stage of the chain. */
  predicate Piece(u: string, base: string) {
    u == HrefBase(base) || u == SrcBase(base) || u == HREF_ROOT || u == SRC_ROOT || u == HREF_MARK || u == SRC_MARK
  }

  predicate Pieces(f: Style, base: string) {
    Piece(f.hb, base) && Piece(f.sb, base) && Piece(f.h, base) && Piece(f.s, base)
  }

  lemma BaseStartsRoot(base: string)
    requires AttributeBase(base)
    ensures HREF_ROOT <= HrefBase(base) && SRC_ROOT <= SrcBase(base)
  {
    assert HrefBase(base)[..|HREF_ROOT|] == HREF_ROOT;
    assert SrcBase(base)[..|SRC_ROOT|] == SRC_ROOT;
  }

  lemma Mismatch(p: string, w: string, i: nat)
    requires i < |p| && (i < |w| ==> p[i] != w[i])
    ensures !(p <= w)
  {
  }

  /** Where the quote sits in an attribute start; the slash comes right after it. */
  function QuoteAt(p: string): nat {
    if p != "" && p[0] == 'h' then 5 else 4
  }

  lemma StartShape(p: string)
    requires StartsAttribute(p)
    ensures var d := QuoteAt(p);
            && d + 1 < |p| && p[d] == '"' && (forall i :: 0 <= i <= d ==> p[i] != '/' && p[i] != '\'')
            && (p[0] == 'h' || p[0] == 's') && p[0] != '"'
  {
    if HREF_ROOT <= p {
      assert forall i :: 0 <= i < 7 ==> p[i] == HREF_ROOT[i];
    } else {
      assert forall i :: 0 <= i < 6 ==> p[i] == SRC_ROOT[i];
    }
  }

  /** The last slash of start-free text cannot be passed by the beginning of an attribute start. */
  lemma NoStartAcrossSlash(x: string, v: string, p: string)
    requires StartFree(x + "/") && StartsAttribute(p)
    ensures !(p <= x + "/" + v)
  {
    StartShape(p);
    var w := x + "/" + v;
    if |x| <= QuoteAt(p) {
      Mismatch(p, w, |x|);
    } else {
      var t := x + "/";
      assert t[0..] == t;
      assert p[..QuoteAt(p) + 2] == if p[0] == 'h' then HREF_ROOT else SRC_ROOT;
      StartWithin(if p[0] == 'h' then HREF_ROOT else SRC_ROOT, t, v);
      PrefixTrans(if p[0] == 'h' then HREF_ROOT else SRC_ROOT, p, w);
    }
  }

  lemma StartWithin(root: string, t: string, v: string)
    requires |root| <= |t|
    ensures root <= t + v <==> root <= t
  {
    assert (t + v)[..|root|] == t[..|root|];
  }

  lemma StartFreeSuffix(t: string, i: nat)
    requires StartFree(t) && i <= |t|
    ensures StartFree(t[i..])
  {
    forall k | 0 <= k <= |t[i..]|
      ensures !StartsAttribute(t[i..][k..])
    {
      DropDrop(t, i, k);
    }
  }

  lemma PrefixTrans(a: string, b: string, c: string)
    requires a <= b
    ensures b <= c ==> a <= c
  {
  }

  /** Length of the part of a piece up to its quote, or of all of a placeholder. */
  function Lead(u: string): nat {
    if u != "" && u[0] == 'h' then 6 else if u != "" && u[0] == 's' then 5 else |u|
  }

  lemma RootedShape(lead: string, base: string, u: string, k: nat)
    requires StartFree(base + "/") && u == lead + base + "/" && |lead| <= k < |u|
    ensures u[|u| - 1] == '/' && StartFree(u[k..])
  {
    StartFreeSuffix(base + "/", k - |lead|);
    assert u[k..] == (base + "/")[k - |lead|..];
  }

  lemma MarkShape(i: nat)
    ensures i < |HREF_MARK| ==> HREF_MARK[i] != 'h' && HREF_MARK[i] != 's'
    ensures i < |SRC_MARK| ==> SRC_MARK[i] != 'h' && SRC_MARK[i] != 's'
  {
    assert 'h' !in HREF_WORD && 's' !in HREF_WORD && 'h' !in SRC_WORD && 's' !in SRC_WORD;
  }

  lemma PieceShape(u: string, base: string, k: nat)
    requires AttributeBase(base) && Piece(u, base) && 1 <= k < |u|
    ensures k < Lead(u) ==> u[k] != 'h' && u[k] != 's'
    ensures k >= Lead(u) ==> u[|u| - 1] == '/' && StartFree(u[k..])
  {
    if u == HrefBase(base) && k >= 6 {
      RootedShape(HREF, base, u, k);
    } else if u == SrcBase(base) && k >= 5 {
      RootedShape(SRC, base, u, k);
    } else {
      MarkShape(k);
    }
  }

  /** Nothing in `u` past its first character can start an attribute, whatever follows. */
  lemma NoStartInside(u: string, base: string, v: string, k: nat, p: string)
    requires AttributeBase(base) && Piece(u, base) && 1 <= k < |u| && StartsAttribute(p)
    ensures !(p <= (u + v)[k..])
  {
    hide StartFree;
    PieceShape(u, base, k);
    var w := (u + v)[k..];
    if k < Lead(u) {
      StartShape(p);
      assert w[0] == u[k];
      Mismatch(p, w, 0);
    } else {
      assert w == u[k..|u| - 1] + "/" + v && u[k..] == u[k..|u| - 1] + "/";
      NoStartAcrossSlash(u[k..|u| - 1], v, p);
    }
  }

  // ---- Replacement over pieces ----

  /** Text in which no occurrence starts is copied. */
  lemma {:induction false} Pass(u: string, v: string, pat: string, sub: string)
    requires pat != "" && forall k :: 0 <= k < |u| ==> !(pat <= (u + v)[k..])
    ensures ReplaceAll(u + v, pat, sub) == u + ReplaceAll(v, pat, sub)
  {
    if u == "" {
      assert u + v == v;
    } else {
      assert (u + v)[0..] == u + v && (u + v)[1..] == u[1..] + v;
      forall k | 0 <= k < |u[1..]|
        ensures !(pat <= (u[1..] + v)[k..])
      {
        assert (u[1..] + v)[k..] == (u + v)[k + 1..];
      }
      Pass(u[1..], v, pat, sub);
    }
  }

  lemma Hit(v: string, pat: string, sub: string)
    requires pat != ""
    ensures ReplaceAll(pat + v, pat, sub) == sub + ReplaceAll(v, pat, sub)
  {
    assert (pat + v)[|pat|..] == v;
  }

  lemma PassWithoutNul(u: string, v: string, pat: string, sub: string)
    requires pat != "" && pat[0] == NUL && NUL !in u
    ensures ReplaceAll(u + v, pat, sub) == u + ReplaceAll(v, pat, sub)
  {
    forall k | 0 <= k < |u|
      ensures !(pat <= (u + v)[k..])
    {
      assert (u + v)[k..][0] == u[k];
      Mismatch(pat, (u + v)[k..], 0);
    }
    Pass(u, v, pat, sub);
  }

  predicate Opens(u: string) {
    u != "" && (u[0] == 'h' || u[0] == 's' || u[0] == NUL)
  }

  predicate OpenStyle(f: Style) {
    Opens(f.hb) && Opens(f.sb) && Opens(f.h) && Opens(f.s)
  }

  /** The front of the content is an attribute start or not, whichever form is looked for. */
  lemma StartShapeOf(c: string, base: string)
    requires AttributeBase(base)
    ensures KindOf(c, base) != NoStart <==> StartsAttribute(c)
    ensures KindOf(c, base) != NoStart ==> c[0] == 'h' || c[0] == 's'
  {
    BaseStartsRoot(base);
    PrefixTrans(HREF_ROOT, HrefBase(base), c);
    PrefixTrans(SRC_ROOT, SrcBase(base), c);
  }

  /** Text without the first letters of a piece reads the same before and after a scan. */
  lemma {:induction false} ScanStart(c: string, base: string, f: Style, w: string)
    requires AttributeBase(base) && OpenStyle(f) && 'h' !in w && 's' !in w && NUL !in w
    ensures w <= Scan(c, base, f) <==> w <= c
    ensures w <= c ==> Scan(c, base, f)[|w|..] == Scan(c[|w|..], base, f)
  {
    hide KindOf, StartFree, StartsAttribute, PlainBase, Scan, Rest;
    ScanFront(c, base, f);
    var t := Scan(c, base, f);
    if w == "" {
      assert t[0..] == t && c[0..] == c;
    } else if c != "" && KindOf(c, base) == NoStart {
      var v := Scan(c[1..], base, f);
      ScanStart(c[1..], base, f, w[1..]);
      assert c == [c[0]] + c[1..];
      HeadTail(w, c[0], v);
      HeadTail(w, c[0], c[1..]);
      if w <= c {
        DropPastHead(c[0], v, |w|);
        DropPastHead(c[0], c[1..], |w|);
      }
    }
  }

  lemma ScanFront(c: string, base: string, f: Style)
    requires AttributeBase(base) && OpenStyle(f)
    ensures c == "" ==> Scan(c, base, f) == ""
    ensures c != "" && KindOf(c, base) == NoStart ==> Scan(c, base, f) == [c[0]] + Scan(c[1..], base, f)
    ensures c != "" && KindOf(c, base) != NoStart ==> Opens(Scan(c, base, f)) && (c[0] == 'h' || c[0] == 's')
  {
    StartShapeOf(c, base);
  }

  lemma HeadTail(p: string, x: char, t: string)
    requires p != ""
    ensures p <= [x] + t <==> p[0] == x && p[1..] <= t
  {
  }

  lemma DropPastHead(x: char, t: string, n: nat)
    requires 1 <= n <= |t| + 1
    ensures ([x] + t)[n..] == t[n - 1..]
  {
  }

  /** Scanning creates no attribute start where there was none. */
  lemma PlainStays(c: string, base: string, f: Style)
    requires AttributeBase(base) && OpenStyle(f) && c != "" && KindOf(c, base) == NoStart
    ensures !StartsAttribute(Scan(c, base, f))
  {
    StartShapeOf(c, base);
    NoRootByLetter(c, base, f, HREF_ROOT);
    NoRootByLetter(c, base, f, SRC_ROOT);
  }

  lemma RootTail(root: string)
    requires root == HREF_ROOT || root == SRC_ROOT
    ensures 'h' !in root[1..] && 's' !in root[1..] && NUL !in root[1..]
  {
  }

  lemma NoRootByLetter(c: string, base: string, f: Style, root: string)
    requires AttributeBase(base) && OpenStyle(f) && c != "" && KindOf(c, base) == NoStart
    requires root == HREF_ROOT || root == SRC_ROOT
    requires !(root <= c)
    ensures !(root <= Scan(c, base, f))
  {
    hide KindOf, StartFree, StartsAttribute, PlainBase, OpenStyle;
    var w := root[1..];
    RootTail(root);
    ScanStart(c[1..], base, f, w);
    HeadTail(root, c[0], Scan(c[1..], base, f));
    HeadTail(root, c[0], c[1..]);
    assert c == [c[0]] + c[1..];
  }

  // ---- The chain, stage by stage ----

  /** The style with one kind written differently. */
  function With(f: Style, k: Kind, sub: string): Style {
    match k
    case HrefBased => f.(hb := sub)
    case SrcBased => f.(sb := sub)
    case HrefPlain => f.(h := sub)
    case SrcPlain => f.(s := sub)
    case NoStart => f
  }

  function Original(base: string): Style {
    Style(HrefBase(base), SrcBase(base), HREF_ROOT, SRC_ROOT)
  }

  predicate SameOrMarked(u: string, original: string) {
    u == original || (u != "" && u[0] == NUL)
  }

  /** Every piece is either as in the content or a placeholder. */
  predicate Faithful(f: Style, base: string) {
    && SameOrMarked(f.hb, HrefBase(base)) && SameOrMarked(f.sb, SrcBase(base))
    && SameOrMarked(f.h, HREF_ROOT) && SameOrMarked(f.s, SRC_ROOT)
  }

  predicate OtherLetter(u: string, pat: string) {
    u != "" && pat != "" && u[0] != pat[0]
  }

  /** A piece cannot be mistaken for the text that stands for another kind in this stage. */
  predicate Apart(f: Style, base: string, k: Kind, other: Kind) {
    || k == other || OtherLetter(f.Of(other), f.Of(k))
    || (k == HrefBased && other == HrefPlain && f.Of(k) == HrefBase(base) && f.Of(other) == HREF_ROOT
        && Faithful(f, base))
    || (k == SrcBased && other == SrcPlain && f.Of(k) == SrcBase(base) && f.Of(other) == SRC_ROOT && Faithful(f, base))
  }

  predicate StageReady(f: Style, base: string, k: Kind) {
    && k != NoStart && StartsAttribute(f.Of(k))
    && Apart(f, base, k, HrefBased) && Apart(f, base, k, SrcBased)
    && Apart(f, base, k, HrefPlain) && Apart(f, base, k, SrcPlain)
  }

  lemma {:induction false} ScanIdentity(c: string, base: string)
    requires AttributeBase(base)
    ensures Scan(c, base, Original(base)) == c
  {
    if c != "" {
      ScanIdentity(Rest(c, base), base);
      RestSplit(c, base);
      assert Front(c, base, Original(base))
             == if KindOf(c, base) == NoStart then [c[0]] else Text(KindOf(c, base), base);
    }
  }

  lemma TextAcross(u: string, x: string, y: string, w: string)
    requires |w| > |u| && w[|u|..] <= x ==> w[|u|..] <= y
    ensures w <= u + x ==> w <= u + y
  {
    if |w| <= |u| {
      StartWithin(w, u, x);
      StartWithin(w, u, y);
    } else if w <= u + x {
      assert w[..|u|] == u && w == u + w[|u|..];
      PrefixSplit(u, w[|u|..], x);
      PrefixSplit(u, w[|u|..], y);
    }
  }

  /** Text without NUL that follows in a faithful scan follows in the content. */
  lemma {:induction false} FaithfulText(c: string, base: string, f: Style, w: string)
    requires AttributeBase(base) && Faithful(f, base) && NUL !in w
    requires w <= Scan(c, base, f)
    ensures w <= c
    decreases |c|
  {
    if w != "" && c != "" {
      var k, rest := KindOf(c, base), Rest(c, base);
      var u := if k == NoStart then [c[0]] else Text(k, base);
      var t := Scan(rest, base, f);
      RestSplit(c, base);
      assert w[0] == Scan(c, base, f)[0];
      if k == NoStart || f.Of(k) == u {
        if |w| > |u| && w[|u|..] <= t {
          FaithfulText(rest, base, f, w[|u|..]);
        }
        TextAcross(u, t, rest, w);
      }
    }
  }

  lemma RestSplit(c: string, base: string)
    requires c != ""
    ensures c == (if KindOf(c, base) == NoStart then [c[0]] else Text(KindOf(c, base), base)) + Rest(c, base)
  {
  }

  lemma RootStays(c: string, base: string, f: Style, root: string, lead: string)
    requires AttributeBase(base) && Faithful(f, base)
    requires root == lead + "/" && root <= c && !(lead + base + "/" <= c)
    ensures !(lead + base + "/" <= root + Scan(c[|root|..], base, f))
  {
    var w, rest := base[1..] + "/", c[|root|..];
    var pat := lead + base + "/";
    assert base == ['/'] + base[1..];
    assert pat == root + w && c == root + rest;
    PrefixSplit(root, w, Scan(rest, base, f));
    PrefixSplit(root, w, rest);
    if w <= Scan(rest, base, f) {
      FaithfulText(rest, base, f, w);
    }
  }

  lemma SplitAt(a: string, b: string, t: string)
    ensures a + b <= t <==> a <= t && b <= t[|a|..]
  {
    if a <= t {
      assert t == a + t[|a|..];
      PrefixSplit(a, b, t[|a|..]);
    } else {
      PrefixTrans(a, a + b, t);
    }
  }

  lemma PrefixSplit(a: string, b: string, t: string)
    ensures a + b <= a + t <==> b <= t
  {
    assert (a + b)[|a|..] == b && (a + t)[|a|..] == t;
  }

  /** No occurrence starts at a piece that is not the pattern, nor inside it. */
  lemma PieceStays(u: string, base: string, v: string, pat: string, sub: string)
    requires AttributeBase(base) && Piece(u, base) && StartsAttribute(pat) && !(pat <= u + v)
    ensures ReplaceAll(u + v, pat, sub) == u + ReplaceAll(v, pat, sub)
  {
    forall k | 0 <= k < |u|
      ensures !(pat <= (u + v)[k..])
    {
      if k > 0 {
        NoStartInside(u, base, v, k, pat);
      } else {
        assert (u + v)[0..] == u + v;
      }
    }
    Pass(u, v, pat, sub);
  }

  lemma PlainStage(c: string, base: string, f: Style, pat: string, sub: string)
    requires AttributeBase(base) && OpenStyle(f) && c != "" && KindOf(c, base) == NoStart && StartsAttribute(pat)
    ensures ReplaceAll(Scan(c, base, f), pat, sub) == [c[0]] + ReplaceAll(Scan(c[1..], base, f), pat, sub)
  {
    PlainStays(c, base, f);
    var t := Scan(c, base, f);
    if HREF_ROOT <= pat {
      PrefixTrans(HREF_ROOT, pat, t);
    } else {
      PrefixTrans(SRC_ROOT, pat, t);
    }
    assert t[1..] == Scan(c[1..], base, f);
  }

  /** The pattern does not occur at a piece of another kind. */
  lemma PieceMisses(c: string, base: string, f: Style, k: Kind)
    requires AttributeBase(base) && StageReady(f, base, k)
    requires c != "" && KindOf(c, base) != NoStart && KindOf(c, base) != k
    ensures !(f.Of(k) <= f.Of(KindOf(c, base)) + Scan(Rest(c, base), base, f))
  {
    var other := KindOf(c, base);
    if OtherLetter(f.Of(other), f.Of(k)) {
      Mismatch(f.Of(k), f.Of(other) + Scan(Rest(c, base), base, f), 0);
    } else if k == HrefBased {
      RootStays(c, base, f, HREF_ROOT, HREF);
    } else {
      RootStays(c, base, f, SRC_ROOT, SRC);
    }
  }

  lemma PieceStage(c: string, base: string, f: Style, k: Kind, sub: string)
    requires AttributeBase(base) && Pieces(f, base) && StageReady(f, base, k)
    requires c != "" && KindOf(c, base) != NoStart
    ensures var rest := Scan(Rest(c, base), base, f);
            ReplaceAll(f.Of(KindOf(c, base)) + rest, f.Of(k), sub)
            == With(f, k, sub).Of(KindOf(c, base)) + ReplaceAll(rest, f.Of(k), sub)
  {
    var rest := Scan(Rest(c, base), base, f);
    if KindOf(c, base) == k {
      Hit(rest, f.Of(k), sub);
    } else {
      PieceMisses(c, base, f, k);
      PieceStays(f.Of(KindOf(c, base)), base, rest, f.Of(k), sub);
    }
  }

  /** One replacement of an attribute start turns one scan into the next. */
  lemma {:induction false} Stage(c: string, base: string, f: Style, k: Kind, sub: string)
    requires AttributeBase(base) && Pieces(f, base) && StageReady(f, base, k)
    ensures ReplaceAll(Scan(c, base, f), f.Of(k), sub) == Scan(c, base, With(f, k, sub))
    decreases |c|
  {
    if c != "" {
      Stage(Rest(c, base), base, f, k, sub);
      if KindOf(c, base) == NoStart {
        PlainStage(c, base, f, f.Of(k), sub);
      } else {
        PieceStage(c, base, f, k, sub);
      }
    }
  }

  // ---- When placeholders run together ----

  predicate StartsBased(c: string, base: string) {
    HrefBase(base) <= c || SrcBase(base) <= c
  }

  /** A prefixed src whose path reads HREF_PLACEHOLDER and runs straight into another prefixed attribute. */
  predicate CollidesAt(c: string, base: string) {
    && SrcBase(base) + HREF_WORD <= c
    && StartsBased(c[|SrcBase(base) + HREF_WORD|..], base)
  }

  predicate Collides(c: string, base: string) {
    exists k :: 0 <= k <= |c| && CollidesAt(c[k..], base)
  }

  /** The same, looked for at attribute starts only. */
  predicate CollidesInScan(c: string, base: string)
    decreases |c|
  {
    c != "" && (CollidesAt(c, base) || CollidesInScan(Rest(c, base), base))
  }

  /** A prefixed src starts at an attribute start or not at all. */
  lemma NoCollisionInside(c: string, base: string, k: nat)
    requires AttributeBase(base) && c != "" && 1 <= k < |c| - |Rest(c, base)|
    ensures !CollidesAt(c[k..], base)
  {
    var u := Text(KindOf(c, base), base);
    assert c == u + Rest(c, base);
    BaseStartsRoot(base);
    NoStartInside(u, base, Rest(c, base), k, SrcBase(base));
    PrefixTrans(SrcBase(base), SrcBase(base) + HREF_WORD, c[k..]);
  }

  lemma {:induction false} CollisionFound(c: string, base: string, k: nat)
    requires AttributeBase(base) && k <= |c| && CollidesAt(c[k..], base)
    ensures CollidesInScan(c, base)
    decreases |c|
  {
    assert c[0..] == c;
    if k > 0 {
      var n := |c| - |Rest(c, base)|;
      if k < n {
        NoCollisionInside(c, base, k);
      } else {
        DropDrop(c, n, k - n);
        CollisionFound(Rest(c, base), base, k - n);
      }
    }
  }

  lemma {:induction false} CollisionIndex(c: string, base: string) returns (k: nat)
    requires CollidesInScan(c, base)
    ensures k <= |c| && CollidesAt(c[k..], base)
    decreases |c|
  {
    if CollidesAt(c, base) {
      k := 0;
      assert c[0..] == c;
    } else {
      var i := CollisionIndex(Rest(c, base), base);
      k := RestIndex(c, base, i);
    }
  }

  lemma RestIndex(c: string, base: string, i: nat) returns (k: nat)
    requires c != "" && i <= |Rest(c, base)|
    ensures k <= |c| && c[k..] == Rest(c, base)[i..]
  {
    var n := |c| - |Rest(c, base)|;
    DropDrop(c, n, i);
    k := n + i;
  }

  lemma CollisionsAtStarts(c: string, base: string)
    requires AttributeBase(base)
    ensures Collides(c, base) <==> CollidesInScan(c, base)
  {
    if Collides(c, base) {
      var k :| 0 <= k <= |c| && CollidesAt(c[k..], base);
      CollisionFound(c, base, k);
    }
    if CollidesInScan(c, base) {
      var k := CollisionIndex(c, base);
    }
  }

  function Marked(base: string): Style {
    Style(HREF_MARK, SRC_MARK, HrefBase(base), SrcBase(base))
  }

  function HrefsBack(t: string, base: string): string {
    ReplaceAll(t, HREF_MARK, HrefBase(base))
  }

  function SrcsBack(t: string, base: string): string {
    ReplaceAll(t, SRC_MARK, SrcBase(base))
  }

  /** The content once the placeholders have been turned back. */
  function Unmarked(c: string, base: string): string {
    SrcsBack(HrefsBack(Scan(c, base, Marked(base)), base), base)
  }

  /** With placeholders put in, the content begins with a NUL: its own or that of a placeholder. */
  predicate NulLed(c: string, base: string) {
    [NUL] <= c || StartsBased(c, base)
  }

  /** A NUL, the content's own or the closing one of a src placeholder, is taken for the opening of an href one. */
  predicate ReadAsHref(c: string, base: string) {
    && c != "" && (KindOf(c, base) == SrcBased || c[0] == NUL)
    && HREF_WORD <= Rest(c, base) && NulLed(Rest(c, base)[|HREF_WORD|..], base)
  }

  /** With the href placeholders turned back, the content begins with a NUL. */
  predicate KeepsNul(c: string, base: string) {
    SrcBase(base) <= c || ([NUL] <= c && !ReadAsHref(c, base))
  }

  /** A NUL of the content's own is taken for the beginning of a src placeholder. */
  predicate ReadAsSrc(c: string, base: string) {
    [NUL] <= c && SRC_WORD <= c[1..] && KeepsNul(c[1..][|SRC_WORD|..], base)
  }

  predicate MisreadAt(c: string, base: string) {
    ReadAsHref(c, base) || ReadAsSrc(c, base)
  }

  /** Reading the content from left to right, some NUL is misread. */
  predicate Misreads(c: string, base: string)
    decreases |c|
  {
    c != "" && (MisreadAt(c, base) || Misreads(Rest(c, base), base))
  }

  lemma WordStart(c: string, base: string, w: string)
    requires AttributeBase(base) && (w == HREF_WORD || w == SRC_WORD)
    ensures var t := Scan(c, base, Marked(base));
            && (w <= t <==> w <= c)
            && (w <= c ==> t[|w|..] == Scan(c[|w|..], base, Marked(base)))
  {
    assert 'h' !in w && 's' !in w && NUL !in w;
    ScanStart(c, base, Marked(base), w);
  }

  lemma FirstIsMark(c: string, base: string)
    requires AttributeBase(base)
    ensures [NUL] <= Scan(c, base, Marked(base)) <==> NulLed(c, base)
  {
    if c != "" {
      var k := KindOf(c, base);
      StartShapeOf(c, base);
      assert Scan(c, base, Marked(base))[0] == if k == NoStart then c[0] else Marked(base).Of(k)[0];
    }
  }

  /** What follows a NUL completes an href placeholder exactly when the content says so. */
  lemma MarkFollows(rest: string, base: string)
    requires AttributeBase(base)
    ensures HREF_TAIL <= Scan(rest, base, Marked(base)) <==> HREF_WORD <= rest && NulLed(rest[|HREF_WORD|..], base)
  {
    var t := Scan(rest, base, Marked(base));
    WordStart(rest, base, HREF_WORD);
    SplitAt(HREF_WORD, [NUL], t);
    if HREF_WORD <= rest {
      FirstIsMark(rest[|HREF_WORD|..], base);
    }
  }

  lemma MarkMisses(v: string, k: nat)
    requires k < |SRC_MARK|
    requires k == |SRC_MARK| - 1 ==> !(HREF_TAIL <= v)
    ensures !(HREF_MARK <= (SRC_MARK + v)[k..])
  {
    var w := (SRC_MARK + v)[k..];
    assert HREF_MARK[1..] == HREF_TAIL;
    if k == 0 {
      assert w[1] == 'S' && HREF_MARK[1] == 'H';
      Mismatch(HREF_MARK, w, 1);
    } else if k < |SRC_MARK| - 1 {
      assert w[0] == SRC_WORD[k - 1];
      Mismatch(HREF_MARK, w, 0);
    } else {
      assert w == [NUL] + v;
      HeadTail(HREF_MARK, NUL, v);
    }
  }

  /** A src placeholder whose closing NUL is not misread is turned back like any other. */
  lemma SrcMarkBack(v: string, base: string)
    requires !(HREF_TAIL <= v)
    ensures SrcsBack(HrefsBack(SRC_MARK + v, base), base) == SrcBase(base) + SrcsBack(HrefsBack(v, base), base)
  {
    forall k | 0 <= k < |SRC_MARK|
      ensures !(HREF_MARK <= (SRC_MARK + v)[k..])
    {
      MarkMisses(v, k);
    }
    Pass(SRC_MARK, v, HREF_MARK, HrefBase(base));
    Hit(HrefsBack(v, base), SRC_MARK, SrcBase(base));
  }

  lemma HrefMarkBack(v: string, base: string)
    requires AttributeBase(base)
    ensures SrcsBack(HrefsBack(HREF_MARK + v, base), base) == HrefBase(base) + SrcsBack(HrefsBack(v, base), base)
  {
    Hit(v, HREF_MARK, HrefBase(base));
    PassWithoutNul(HrefBase(base), HrefsBack(v, base), SRC_MARK, SrcBase(base));
  }

  lemma OtherTextBack(u: string, v: string, base: string)
    requires NUL !in u
    ensures SrcsBack(HrefsBack(u + v, base), base) == u + SrcsBack(HrefsBack(v, base), base)
  {
    PassWithoutNul(u, v, HREF_MARK, HrefBase(base));
    PassWithoutNul(u, HrefsBack(v, base), SRC_MARK, SrcBase(base));
  }

  lemma NulPasses(v: string, base: string)
    requires !(HREF_TAIL <= v)
    ensures HrefsBack([NUL] + v, base) == [NUL] + HrefsBack(v, base)
  {
    HeadTail(HREF_MARK, NUL, v);
    assert HREF_MARK[1..] == HREF_TAIL;
    assert ([NUL] + v)[1..] == v;
  }

  lemma NulTaken(v: string, base: string)
    requires HREF_TAIL <= v
    ensures HrefBase(base) <= HrefsBack([NUL] + v, base)
  {
    HeadTail(HREF_MARK, NUL, v);
    assert HREF_MARK[1..] == HREF_TAIL;
  }

  /** Text without the first letters of attributes at the front after a mark is replaced stood there before. */
  lemma {:induction false} UnmarkStart(t: string, mark: string, sub: string, w: string)
    requires mark != "" && sub != "" && (sub[0] == 'h' || sub[0] == 's') && 'h' !in w && 's' !in w
    ensures w <= ReplaceAll(t, mark, sub) ==> w <= t
    decreases |t|
  {
    if w != "" && t != "" {
      if mark <= t {
        assert ReplaceAll(t, mark, sub)[0] == sub[0] && w[0] in w;
      } else {
        var v := ReplaceAll(t[1..], mark, sub);
        UnmarkStart(t[1..], mark, sub, w[1..]);
        HeadTail(w, t[0], v);
        HeadTail(w, t[0], t[1..]);
        assert t == [t[0]] + t[1..];
      }
    }
  }

  /** Text without NUL that stands at the front stays there when marks are replaced. */
  lemma FrontKept(t: string, mark: string, sub: string, w: string)
    requires mark != "" && mark[0] == NUL && NUL !in w && w <= t
    ensures ReplaceAll(t, mark, sub) == w + ReplaceAll(t[|w|..], mark, sub)
  {
    assert t == w + t[|w|..];
    PassWithoutNul(w, t[|w|..], mark, sub);
  }

  lemma NulAfterHrefs(c: string, base: string)
    requires AttributeBase(base)
    ensures [NUL] <= HrefsBack(Scan(c, base, Marked(base)), base) <==> KeepsNul(c, base)
  {
    if c != "" {
      var k, v := KindOf(c, base), Scan(Rest(c, base), base, Marked(base));
      StartShapeOf(c, base);
      if k == HrefBased {
        Hit(v, HREF_MARK, HrefBase(base));
      } else if k == SrcBased {
        MarkMisses(v, 0);
        assert (SRC_MARK + v)[0..] == SRC_MARK + v;
      } else if k == NoStart && c[0] == NUL {
        NulReading(c, base);
      }
    }
  }

  /** How a NUL of the content fares when the href placeholders are turned back. */
  lemma NulReading(c: string, base: string)
    requires AttributeBase(base) && [NUL] <= c
    ensures KindOf(c, base) == NoStart
    ensures var t, v := Scan(c, base, Marked(base)), Scan(c[1..], base, Marked(base));
            && (ReadAsHref(c, base) ==> HrefBase(base) <= HrefsBack(t, base))
            && (!ReadAsHref(c, base) ==> HrefsBack(t, base) == [NUL] + HrefsBack(v, base))
  {
    StartShapeOf(c, base);
    var v := Scan(c[1..], base, Marked(base));
    MarkFollows(c[1..], base);
    if ReadAsHref(c, base) {
      NulTaken(v, base);
    } else {
      NulPasses(v, base);
    }
  }

  /** After the href placeholders a NUL of the content begins a src placeholder exactly when the content says so. */
  lemma SrcReading(c: string, base: string)
    requires AttributeBase(base) && [NUL] <= c
    ensures SRC_MARK <= [NUL] + HrefsBack(Scan(c[1..], base, Marked(base)), base) <==> ReadAsSrc(c, base)
  {
    hide Scan, ReplaceAll, KindOf, ReadAsHref;
    var w := HrefsBack(Scan(c[1..], base, Marked(base)), base);
    assert SRC_MARK[1..] == SRC_WORD + [NUL];
    HeadTail(SRC_MARK, NUL, w);
    SplitAt(SRC_WORD, [NUL], w);
    SrcWordAfterHrefs(c[1..], base);
    if SRC_WORD <= c[1..] {
      NulAfterHrefs(c[1..][|SRC_WORD|..], base);
    }
  }

  lemma SrcWordAfterHrefs(c: string, base: string)
    requires AttributeBase(base)
    ensures var w := HrefsBack(Scan(c, base, Marked(base)), base);
            && (SRC_WORD <= w <==> SRC_WORD <= c)
            && (SRC_WORD <= c ==> w[|SRC_WORD|..] == HrefsBack(Scan(c[|SRC_WORD|..], base, Marked(base)), base))
  {
    hide Scan, ReplaceAll, KindOf;
    var v := Scan(c, base, Marked(base));
    assert 'h' !in SRC_WORD && 's' !in SRC_WORD && NUL !in SRC_WORD;
    WordStart(c, base, SRC_WORD);
    UnmarkStart(v, HREF_MARK, HrefBase(base), SRC_WORD);
    if SRC_WORD <= v {
      FrontKept(v, HREF_MARK, HrefBase(base), SRC_WORD);
    }
  }

  /** One piece at a time, the placeholders are turned back as intended unless a NUL is misread here. */
  lemma UnmarkStep(c: string, base: string)
    requires AttributeBase(base) && c != "" && !MisreadAt(c, base)
    ensures Unmarked(c, base) == Front(c, base, Prefixed(base)) + Unmarked(Rest(c, base), base)
  {
    hide ReplaceAll, ReadAsHref, ReadAsSrc, Scan, StartFree, KindOf;
    var k, v := KindOf(c, base), Scan(Rest(c, base), base, Marked(base));
    MarkedStep(c, base);
    if k == HrefBased {
      HrefMarkBack(v, base);
    } else if k == SrcBased {
      SrcReadAsHref(c, base);
      SrcMarkBack(v, base);
    } else if c[0] == NUL {
      UnmarkNul(c, base);
    } else {
      OtherTextBack(Front(c, base, Marked(base)), v, base);
    }
  }

  lemma MarkedStep(c: string, base: string)
    requires AttributeBase(base) && c != ""
    ensures Scan(c, base, Marked(base)) == Front(c, base, Marked(base)) + Scan(Rest(c, base), base, Marked(base))
    ensures c[0] == NUL ==> KindOf(c, base) == NoStart
    ensures c[0] != NUL && KindOf(c, base) != HrefBased && KindOf(c, base) != SrcBased ==>
            NUL !in Front(c, base, Marked(base))
  {
    hide StartFree, HrefBase, SrcBase;
    StartShapeOf(c, base);
    BasedWithoutNul(base);
  }

  lemma BasedWithoutNul(base: string)
    requires PlainBase(base)
    ensures NUL !in HrefBase(base) && NUL !in SrcBase(base)
  {
  }

  lemma SrcReadAsHref(c: string, base: string)
    requires AttributeBase(base) && c != "" && KindOf(c, base) == SrcBased
    ensures ReadAsHref(c, base) <==> HREF_TAIL <= Scan(Rest(c, base), base, Marked(base))
  {
    MarkFollows(Rest(c, base), base);
  }

  lemma UnmarkNul(c: string, base: string)
    requires AttributeBase(base) && [NUL] <= c && !MisreadAt(c, base)
    ensures Unmarked(c, base) == [NUL] + Unmarked(Rest(c, base), base)
  {
    hide Scan, KindOf, ReadAsHref, ReadAsSrc;
    var w := HrefsBack(Scan(c[1..], base, Marked(base)), base);
    NulReading(c, base);
    SrcReading(c, base);
    assert ([NUL] + w)[1..] == w;
  }

  // ---- What a misread NUL does ----

  /** The word of the placeholder for the attribute start at the front. */
  function WordOf(x: string, base: string): string {
    if HrefBase(base) <= x then HREF_WORD else SRC_WORD
  }

  /** What follows the word that a misread NUL takes for a placeholder's. */
  function PastWord(c: string, base: string): (x: string)
    requires MisreadAt(c, base)
    ensures x != "" && |x| < |c|
  {
    if ReadAsHref(c, base) then Rest(c, base)[|HREF_WORD|..] else c[1..][|SRC_WORD|..]
  }

  /** What stands in the result where a NUL is misread. */
  function Mess(c: string, base: string): string
    requires MisreadAt(c, base)
  {
    if KindOf(c, base) == SrcBased then [NUL] + SRC_WORD + HrefBase(base)
    else if ReadAsHref(c, base) then HrefBase(base)
    else SrcBase(base)
  }

  /** What the six replacements make of any content, read from left to right. A misread NUL swallows the next one; if
    * that opened a placeholder, its word is laid bare and its closing NUL is left to the text that follows.
    */
  function Actual(c: string, base: string): string
    decreases |c|
  {
    if c == "" then ""
    else if !MisreadAt(c, base) then Front(c, base, Prefixed(base)) + Actual(Rest(c, base), base)
    else
      var x := PastWord(c, base);
      Mess(c, base)
      + if [NUL] <= x then Actual(x[1..], base) else WordOf(x, base) + Actual([NUL] + Rest(x, base), base)
  }

  lemma ScanNul(s: string, base: string, f: Style)
    ensures Scan([NUL] + s, base, f) == [NUL] + Scan(s, base, f)
  {
    var c := [NUL] + s;
    assert c[0] == NUL && HREF_ROOT[0] == 'h' && SRC_ROOT[0] == 's';
    assert HrefBase(base)[0] == 'h' && SrcBase(base)[0] == 's';
    assert KindOf(c, base) == NoStart && c[1..] == s;
  }

  /** What the marked content reads after the NUL that is swallowed. */
  function Behind(x: string, base: string): string
    requires x != ""
  {
    if [NUL] <= x then Scan(x[1..], base, Marked(base))
    else WordOf(x, base) + Scan([NUL] + Rest(x, base), base, Marked(base))
  }

  lemma MarkedNulLed(x: string, base: string)
    requires AttributeBase(base) && NulLed(x, base)
    ensures x != "" && Scan(x, base, Marked(base)) == [NUL] + Behind(x, base)
  {
    StartShapeOf(x, base);
    if [NUL] <= x {
      assert x == [NUL] + x[1..];
      ScanNul(x[1..], base, Marked(base));
    } else {
      MarkedBased(x, base);
    }
  }

  lemma MarkedBased(x: string, base: string)
    requires AttributeBase(base) && StartsBased(x, base)
    ensures x != "" && Scan(x, base, Marked(base))
            == [NUL] + (WordOf(x, base) + Scan([NUL] + Rest(x, base), base, Marked(base)))
  {
    hide StartFree, StartsAttribute, PlainBase, Rest;
    var t := Scan(Rest(x, base), base, Marked(base));
    ScanNul(Rest(x, base), base, Marked(base));
    assert x[0] == if HrefBase(base) <= x then 'h' else 's';
    assert Front(x, base, Marked(base)) == [NUL] + WordOf(x, base) + [NUL];
    MarkParts(WordOf(x, base), t);
  }

  lemma MarkParts(word: string, t: string)
    ensures [NUL] + word + [NUL] + t == [NUL] + (word + ([NUL] + t))
  {
  }

  lemma WordsHaveNoNul()
    ensures NUL !in HREF_WORD && NUL !in SRC_WORD
  {
  }

  lemma BehindBack(x: string, base: string)
    requires AttributeBase(base) && NulLed(x, base)
    ensures x != ""
    ensures SrcsBack(HrefsBack(Behind(x, base), base), base)
            == if [NUL] <= x then Unmarked(x[1..], base) else WordOf(x, base) + Unmarked([NUL] + Rest(x, base), base)
  {
    WordsHaveNoNul();
    MarkedNulLed(x, base);
    if !([NUL] <= x) {
      OtherTextBack(WordOf(x, base), Scan([NUL] + Rest(x, base), base, Marked(base)), base);
    }
  }

  /** The marked text after a piece whose closing NUL is misread. */
  lemma MisreadText(c: string, base: string)
    requires AttributeBase(base) && ReadAsHref(c, base)
    ensures var x := Rest(c, base)[|HREF_WORD|..];
            x != "" && Scan(Rest(c, base), base, Marked(base)) == HREF_TAIL + Behind(x, base)
  {
    hide Scan, KindOf;
    var rest := Rest(c, base);
    var v, x := Scan(rest, base, Marked(base)), rest[|HREF_WORD|..];
    WordStart(rest, base, HREF_WORD);
    MarkedNulLed(x, base);
    assert v == HREF_WORD + v[|HREF_WORD|..] == HREF_WORD + ([NUL] + Behind(x, base));
  }

  lemma NulTakenBack(z: string, base: string)
    requires AttributeBase(base)
    ensures SrcsBack(HrefsBack([NUL] + (HREF_TAIL + z), base), base)
            == HrefBase(base) + SrcsBack(HrefsBack(z, base), base)
  {
    assert [NUL] + (HREF_TAIL + z) == HREF_MARK + z;
    HrefMarkBack(z, base);
  }

  /** A src placeholder whose closing NUL is misread stays behind, without that NUL. */
  lemma SrcMarkBroken(z: string, base: string)
    requires AttributeBase(base)
    ensures SrcsBack(HrefsBack(SRC_MARK + (HREF_TAIL + z), base), base)
            == [NUL] + SRC_WORD + HrefBase(base) + SrcsBack(HrefsBack(z, base), base)
  {
    var open, tail := [NUL] + SRC_WORD, [NUL] + (HREF_TAIL + z);
    assert SRC_MARK + (HREF_TAIL + z) == open + tail && tail == HREF_MARK + z;
    forall k | 0 <= k < |open|
      ensures !(HREF_MARK <= (open + tail)[k..])
    {
      MarkMisses(HREF_TAIL + z, k);
    }
    Pass(open, tail, HREF_MARK, HrefBase(base));
    Hit(z, HREF_MARK, HrefBase(base));
    BrokenStays(HrefsBack(z, base), base);
  }

  lemma HrefFirst(base: string)
    ensures HrefBase(base) != "" && HrefBase(base)[0] == 'h'
  {
  }

  lemma BrokenStays(y: string, base: string)
    requires AttributeBase(base)
    ensures SrcsBack([NUL] + SRC_WORD + (HrefBase(base) + y), base)
            == [NUL] + SRC_WORD + HrefBase(base) + SrcsBack(y, base)
  {
    hide StartFree, HrefBase, SrcBase;
    HrefFirst(base);
    var text := SRC_WORD + HrefBase(base);
    var back := [NUL] + SRC_WORD + (HrefBase(base) + y);
    assert back[16] == 'h' && SRC_MARK[16] == NUL;
    Mismatch(SRC_MARK, back, 16);
    assert back[0] == NUL && back[1..] == text + y;
    WordsHaveNoNul();
    BasedWithoutNul(base);
    PassWithoutNul(text, y, SRC_MARK, SrcBase(base));
  }

  lemma PrefixRest(w: string, t: string)
    requires w <= t
    ensures t == w + t[|w|..]
  {
  }

  /** A NUL of the content's own that is taken, with the word after it, for a src placeholder. */
  lemma SrcTakenBack(c: string, base: string)
    requires AttributeBase(base) && [NUL] <= c && ReadAsSrc(c, base) && !ReadAsHref(c, base)
    ensures var x := c[1..][|SRC_WORD|..];
            NulLed(x, base) && x != ""
            && Unmarked(c, base) == SrcBase(base) + SrcsBack(HrefsBack(Behind(x, base), base), base)
  {
    hide Scan, KindOf, ReadAsHref, ReplaceAll, HrefsBack, Behind, KeepsNul, StartFree;
    var x := c[1..][|SRC_WORD|..];
    KeptNul(x, base);
    var w, z := HrefsBack(Scan(c[1..], base, Marked(base)), base), HrefsBack(Behind(x, base), base);
    NulReading(c, base);
    SrcWordAfterHrefs(c[1..], base);
    PrefixRest(SRC_WORD, w);
    MarkParts(SRC_WORD, z);
    Hit(z, SRC_MARK, SrcBase(base));
  }

  lemma KeptNul(x: string, base: string)
    requires AttributeBase(base) && KeepsNul(x, base)
    ensures NulLed(x, base) && x != ""
    ensures HrefsBack(Scan(x, base, Marked(base)), base) == [NUL] + HrefsBack(Behind(x, base), base)
  {
    MarkedNulLed(x, base);
    if SrcBase(base) <= x {
      var v := Scan(Rest(x, base), base, Marked(base));
      StartShapeOf(x, base);
      MarkMisses(v, 0);
      assert (SRC_MARK + v)[0..] == SRC_MARK + v;
      assert ([NUL] + Behind(x, base))[1..] == Behind(x, base);
    } else {
      NulReading(x, base);
    }
  }

  /** One misread NUL at a time. */
  lemma MisreadStep(c: string, base: string)
    requires AttributeBase(base) && MisreadAt(c, base)
    ensures var x := PastWord(c, base);
            Unmarked(c, base) == Mess(c, base)
              + if [NUL] <= x then Unmarked(x[1..], base) else WordOf(x, base) + Unmarked([NUL] + Rest(x, base), base)
  {
    hide ReplaceAll, Scan, KindOf, KeepsNul, Behind;
    var x := PastWord(c, base);
    MarkedStep(c, base);
    if ReadAsHref(c, base) {
      MisreadText(c, base);
      BehindBack(x, base);
      if KindOf(c, base) == SrcBased {
        SrcMarkBroken(Behind(x, base), base);
      } else {
        NulTakenBack(Behind(x, base), base);
      }
    } else {
      SrcTakenBack(c, base);
      BehindBack(x, base);
    }
  }

  /** The chain of six replacements, for any content, does what one reading from left to right says. */
  lemma {:induction false} UnmarkedIsActual(c: string, base: string)
    requires AttributeBase(base)
    ensures Unmarked(c, base) == Actual(c, base)
    decreases |c|
  {
    hide MisreadAt, Mess, KindOf;
    if c != "" {
      if MisreadAt(c, base) {
        var x := PastWord(c, base);
        MisreadStep(c, base);
        if [NUL] <= x {
          UnmarkedIsActual(x[1..], base);
        } else {
          UnmarkedIsActual([NUL] + Rest(x, base), base);
        }
      } else {
        UnmarkStep(c, base);
        UnmarkedIsActual(Rest(c, base), base);
      }
    }
  }

  /** A misread NUL shows in the first character. */
  lemma MisreadShows(c: string, base: string)
    requires AttributeBase(base) && MisreadAt(c, base)
    ensures Actual(c, base) != "" && Fix(c, base) != "" && Actual(c, base)[0] != Fix(c, base)[0]
    ensures KindOf(c, base) == SrcBased ==> [NUL] <= Actual(c, base)
  {
    StartShapeOf(c, base);
    assert Actual(c, base)[0] == Mess(c, base)[0];
    assert Fix(c, base)[0] == Front(c, base, Prefixed(base))[0];
  }

  /** The placeholders are turned back as intended exactly when no NUL is misread. */
  lemma {:induction false} ActualIsFixIff(c: string, base: string)
    requires AttributeBase(base)
    ensures Actual(c, base) == Fix(c, base) <==> !Misreads(c, base)
    decreases |c|
  {
    if c != "" {
      if MisreadAt(c, base) {
        MisreadShows(c, base);
      } else {
        ActualIsFixIff(Rest(c, base), base);
        SameTail(Front(c, base, Prefixed(base)), Actual(Rest(c, base), base), Fix(Rest(c, base), base));
      }
    }
  }

  lemma SameTail(u: string, x: string, y: string)
    ensures u + x == u + y <==> x == y
  {
    assert (u + x)[|u|..] == x && (u + y)[|u|..] == y;
  }

  lemma NoCollisionHere(c: string, base: string)
    requires AttributeBase(base) && c != "" && KindOf(c, base) == SrcBased
    ensures CollidesAt(c, base)
            <==> HREF_WORD <= Rest(c, base) && StartsBased(Rest(c, base)[|HREF_WORD|..], base)
  {
    var u, rest := SrcBase(base), Rest(c, base);
    assert c == u + rest;
    PrefixSplit(u, HREF_WORD, rest);
    if HREF_WORD <= rest {
      assert c[|u + HREF_WORD|..] == rest[|HREF_WORD|..];
    }
  }

  lemma CollisionStart(c: string, base: string)
    requires AttributeBase(base) && CollidesAt(c, base)
    ensures c != "" && KindOf(c, base) == SrcBased
  {
    PrefixTrans(SrcBase(base), SrcBase(base) + HREF_WORD, c);
    assert c[0] == 's';
  }

  lemma MisreadIsCollision(c: string, base: string)
    requires AttributeBase(base) && NUL !in c
    ensures MisreadAt(c, base) <==> CollidesAt(c, base)
  {
    if CollidesAt(c, base) {
      CollisionStart(c, base);
    }
    if c != "" {
      assert c[0] in c;
      RestSplit(c, base);
      if KindOf(c, base) == SrcBased {
        NoCollisionHere(c, base);
        if HREF_WORD <= Rest(c, base) {
          NoNulInFront(c, Rest(c, base)[|HREF_WORD|..]);
        }
      }
    }
  }

  lemma NoNulInFront(c: string, x: string)
    requires NUL !in c && forall i :: 0 <= i < |x| ==> x[i] in c
    ensures !([NUL] <= x)
  {
    if x != "" {
      assert x[0] in c;
    }
  }

  /** In content without NUL the only NULs to misread are those of placeholders that run together. */
  lemma {:induction false} MisreadsAreCollisions(c: string, base: string)
    requires AttributeBase(base) && NUL !in c
    ensures Misreads(c, base) <==> CollidesInScan(c, base)
    decreases |c|
  {
    if c != "" {
      MisreadIsCollision(c, base);
      MisreadsAreCollisions(Rest(c, base), base);
    }
  }

  lemma {:induction false} FixHasNoNul(c: string, base: string)
    requires AttributeBase(base) && NUL !in c
    ensures NUL !in Fix(c, base)
    decreases |c|
  {
    if c != "" {
      RestSplit(c, base);
      FixHasNoNul(Rest(c, base), base);
      assert NUL !in Front(c, base, Prefixed(base));
    }
  }

  /** What the first four replacements make of the content. */
  lemma MarkedStages(c: string, base: string)
    requires AttributeBase(base)
    ensures RewriteAttributes(c, base) == Unmarked(c, base)
  {
    ScanIdentity(c, base);
    BaseStartsRoot(base);
    var f1 := Original(base);
    Stage(c, base, f1, HrefBased, HREF_MARK);
    var f2 := With(f1, HrefBased, HREF_MARK);
    Stage(c, base, f2, SrcBased, SRC_MARK);
    var f3 := With(f2, SrcBased, SRC_MARK);
    Stage(c, base, f3, HrefPlain, HrefBase(base));
    var f4 := With(f3, HrefPlain, HrefBase(base));
    Stage(c, base, f4, SrcPlain, SrcBase(base));
    assert With(f4, SrcPlain, SrcBase(base)) == Marked(base);
  }

  /** What the six replacements do to any content. */
  lemma AttributesActual(c: string, base: string)
    requires AttributeBase(base)
    ensures RewriteAttributes(c, base) == Actual(c, base)
  {
    MarkedStages(c, base);
    UnmarkedIsActual(c, base);
  }

  /** The chain of six replacements through placeholders is the intended one-pass rewriting, for any content,
    * exactly when no NUL is misread as part of a placeholder.
    */
  lemma AttributesExactIff(c: string, base: string)
    requires AttributeBase(base)
    ensures RewriteAttributes(c, base) == Fix(c, base) <==> !Misreads(c, base)
  {
    AttributesActual(c, base);
    ActualIsFixIff(c, base);
  }

  /** For content without NUL: exactly when no two placeholders run together around the word HREF_PLACEHOLDER. */
  lemma AttributesExact(c: string, base: string)
    requires AttributeBase(base) && NUL !in c
    ensures RewriteAttributes(c, base) == Fix(c, base) <==> !Collides(c, base)
  {
    AttributesExactIff(c, base);
    MisreadsAreCollisions(c, base);
    CollisionsAtStarts(c, base);
  }

  lemma {:induction false} CollisionLeavesNul(c: string, base: string)
    requires AttributeBase(base) && NUL !in c && CollidesInScan(c, base)
    ensures NUL in Actual(c, base)
    decreases |c|
  {
    MisreadIsCollision(c, base);
    if CollidesAt(c, base) {
      CollisionStart(c, base);
      MisreadShows(c, base);
    } else {
      CollisionLeavesNul(Rest(c, base), base);
    }
  }

  /** Content without NUL comes out with a NUL in it exactly when placeholders run together. */
  lemma AttributesLeaveNulIff(c: string, base: string)
    requires AttributeBase(base) && NUL !in c
    ensures NUL in RewriteAttributes(c, base) <==> Collides(c, base)
  {
    AttributesActual(c, base);
    CollisionsAtStarts(c, base);
    if CollidesInScan(c, base) {
      CollisionLeavesNul(c, base);
    } else {
      AttributesExact(c, base);
      FixHasNoNul(c, base);
    }
  }
}
