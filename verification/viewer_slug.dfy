/**
 * The viewer's own `createSlug`: one chain of string replacements, which must
 * produce the compiler's slugs because slugs are the join key between
 * mentions, entities and hash routes.
 */
module ViewerSlug {
  import opened Names

  /** One link of the viewer's method chain. */
  datatype Op =
    | ToLower          // .toLowerCase()
    | StripChars       // .replace(/[.,\/#!$%\^&\*;:{}=\-_`~()]/g, '')
    | SpacesToSpace    // .replace(/\s+/g, ' ')
    | DropStopwords    // .replace(/\b(inc|corp|...|sa)\b/gi, '')
    | TrimEnds         // .trim()
    | SpacesToHyphen   // .replace(/\s+/g, '-')
    | MergeHyphens     // .replace(/-+/g, '-')

  function Apply(op: Op, s: string): string {
    match op
    case ToLower => Lower(s)
    case StripChars => StripPunctuation(s)
    case SpacesToSpace => CollapseSpaces(s)
    case DropStopwords => RemoveStopwords(s)
    case TrimEnds => Trim(s)
    case SpacesToHyphen => Hyphenate(s)
    case MergeHyphens => CollapseHyphens(s)
  }

  /** Applies the links of a chain left to right. */
  function Chain(ops: seq<Op>, s: string): string
    decreases |ops|
  {
    if ops == [] then s else Chain(ops[1..], Apply(ops[0], s))
  }

  /** The chain written out in the viewer's `createSlug`. */
  const ViewerChain: seq<Op> := NormalizeLinks + SlugLinks

  /** The links up to `.trim()`, which compute the compiler's `normalizeCompanyName`. */
  const NormalizeLinks: seq<Op> := [ToLower, StripChars, SpacesToSpace, DropStopwords, TrimEnds]

  /** The two links that turn the normalised name into a slug. */
  const SlugLinks: seq<Op> := [SpacesToHyphen, MergeHyphens]

  function Slugify(name: string): string {
    Chain(ViewerChain, name)
  }

  /** A chain split in two runs its halves one after the other. */
  lemma {:induction false} ChainSplit(a: seq<Op>, b: seq<Op>, s: string)
    ensures Chain(a + b, s) == Chain(b, Chain(a, s))
    decreases |a|
  {
    if a != [] {
      assert (a + b)[0] == a[0] && (a + b)[1..] == a[1..] + b;
      ChainSplit(a[1..], b, Apply(a[0], s));
    } else {
      assert a + b == b;
    }
  }

  /** A chain runs its first link, then the rest. */
  lemma ChainCons(op: Op, ops: seq<Op>, s: string)
    ensures Chain([op] + ops, s) == Chain(ops, Apply(op, s))
  {
    assert ([op] + ops)[0] == op && ([op] + ops)[1..] == ops;
  }

  /** The links up to `.trim()` compute the compiler's normalised name. */
  lemma NormalizeLinksNormalize(name: string)
    ensures Chain(NormalizeLinks, name) == Normalize(name)
  {
    var s1 := Lower(name);
    var s2 := StripPunctuation(s1);
    var s3 := CollapseSpaces(s2);
    var s4 := RemoveStopwords(s3);
    assert Chain(NormalizeLinks, name) == Chain(NormalizeLinks[1..], s1);
    assert NormalizeLinks[1..][1..] == [SpacesToSpace, DropStopwords, TrimEnds];
    assert Chain(NormalizeLinks[1..], s1) == Chain([SpacesToSpace, DropStopwords, TrimEnds], s2);
    assert Chain([SpacesToSpace, DropStopwords, TrimEnds], s2) == Chain([DropStopwords, TrimEnds], s3);
    assert Chain([DropStopwords, TrimEnds], s3) == Chain([TrimEnds], s4);
  }

  /** The last two links hyphenate the whitespace runs and merge the hyphen runs. */
  lemma SlugLinksSlug(n: string)
    ensures Chain(SlugLinks, n) == CollapseHyphens(Hyphenate(n))
  {
    assert SlugLinks == [SpacesToHyphen] + [MergeHyphens];
    ChainCons(SpacesToHyphen, [MergeHyphens], n);
    assert [MergeHyphens] == [MergeHyphens] + [];
    ChainCons(MergeHyphens, [], Hyphenate(n));
  }

  /** The viewer's chain computes the compiler's `createSlug`, for every string. */
  lemma SlugifyIsSlug(name: string)
    ensures Slugify(name) == Slug(name)
  {
    ChainSplit(NormalizeLinks, SlugLinks, name);
    NormalizeLinksNormalize(name);
    SlugLinksSlug(Normalize(name));
  }
}
