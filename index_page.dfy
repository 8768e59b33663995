/**
 * The generated part of `dist/index.html`: one block per presentation with
 * its humanized title and a link to `./<name>/`, or a placeholder when there
 * are none. The fixed HTML head and tail around it are not modelled.
 */
module IndexPage {
  import opened Wrappers
  import opened Title
  import opened Search

  const BlockOpen: string := "\n  <div class=\"presentation\">\n    <h3>"
  const TitleClose: string := "</h3>\n    <a href=\"./"
  const BlockClose: string := "/\">View Presentation →</a>\n  </div>"
  const Placeholder: string := "<div class=\"no-presentations\">" + "No presentations found" + "</div>"

  /** The block for one presentation; the name goes into the link verbatim, unescaped. */
  function Block(name: string): string {
    BlockOpen + Humanize(name) + TitleClose + name + BlockClose
  }

  /** `presentations.map(block).join("")`. */
  function Blocks(names: seq<string>): string {
    if names == [] then "" else Block(names[0]) + Blocks(names[1..])
  }

  /** The interpolated body: the blocks, or the placeholder for an empty list. */
  function IndexBody(names: seq<string>): string {
    if |names| > 0 then Blocks(names) else Placeholder
  }

  /** What one block shows: its heading and the directory its link points to. */
  datatype Listed = Listed(title: string, name: string)

  /** What the page should list: each name, in order, with its humanized title. */
  function Listings(names: seq<string>): (r: seq<Listed>)
    ensures |r| == |names|
    ensures forall i :: 0 <= i < |names| ==> r[i] == Listed(Humanize(names[i]), names[i])
  {
    if names == [] then [] else [Listed(Humanize(names[0]), names[0])] + Listings(names[1..])
  }

  // ---------------------------------------------------------------------
  // Reading a body back
  // ---------------------------------------------------------------------

  /** The index of the first `c` in `s`, or `|s|` when there is none. */
  function FirstIndexOf(s: string, c: char): (k: nat)
    ensures k <= |s|
    ensures forall j :: 0 <= j < k ==> s[j] != c
    ensures k < |s| ==> s[k] == c
  {
    match FirstIndex(s, x => x == c)
    case Some(k) => k
    case None => |s|
  }

  lemma FirstIndexOfAt(s: string, c: char, k: nat)
    requires k < |s| && s[k] == c
    requires forall j :: 0 <= j < k ==> s[j] != c
    ensures FirstIndexOf(s, c) == k
  {
    FirstIndexIs(s, x => x == c, k);
  }

  /** Reads a title up to the `</h3>` that closes it; also returns what follows. */
  function ReadTitle(r: string): (o: Option<(string, string)>)
    ensures o.Some? ==> |o.value.1| < |r|
  {
    var t := FirstIndexOf(r, '/');
    if t == 0 || !(TitleClose <= r[t - 1..]) then None
    else Some((r[..t - 1], r[t - 1 + |TitleClose|..]))
  }

  /** Reads a link's name up to the `/">` that closes it; also returns what follows. */
  function ReadName(r: string): (o: Option<(string, string)>)
    ensures o.Some? ==> |o.value.1| < |r|
  {
    var m := FirstIndexOf(r, '/');
    if !(BlockClose <= r[m..]) then None
    else Some((r[..m], r[m + |BlockClose|..]))
  }

  /**
   * Reads one block back into what it shows. A block's title ends at the
   * first `/` (the one in `</h3>`) and its link's name at the next `/`, so
   * this is exact for names without `/`, which directory names never have.
   */
  function ReadBlock(s: string): (o: Option<(Listed, string)>)
    ensures o.Some? ==> |o.value.1| < |s|
  {
    if !(BlockOpen <= s) then None
    else match ReadTitle(s[|BlockOpen|..])
      case None => None
      case Some((title, r)) =>
        match ReadName(r)
        case None => None
        case Some((name, rest)) => Some((Listed(title, name), rest))
  }

  /** Reads a run of blocks back into what they show. */
  function ParseBlocks(s: string): Option<seq<Listed>>
    decreases |s|
  {
    if s == [] then Some([])
    else match ReadBlock(s)
      case None => None
      case Some((l, rest)) =>
        match ParseBlocks(rest)
        case None => None
        case Some(more) => Some([l] + more)
  }

  function ParseIndexBody(body: string): Option<seq<Listed>> {
    if body == Placeholder then Some([]) else ParseBlocks(body)
  }

  lemma ReadTitleOf(h: string, rest: string)
    requires '/' !in h
    ensures ReadTitle(h + TitleClose + rest) == Some((h, rest))
  {
    var r := h + TitleClose + rest;
    FirstIndexOfAt(r, '/', |h| + 1);
    assert r[|h|..] == TitleClose + rest;
    assert r[..|h|] == h;
    assert r[|h| + |TitleClose|..] == rest;
  }

  lemma ReadNameOf(name: string, rest: string)
    requires '/' !in name
    ensures ReadName(name + BlockClose + rest) == Some((name, rest))
  {
    var r := name + BlockClose + rest;
    FirstIndexOfAt(r, '/', |name|);
    assert r[|name|..] == BlockClose + rest;
    assert r[..|name|] == name;
    assert r[|name| + |BlockClose|..] == rest;
  }

  /** One block, followed by anything, reads back as its title and name. */
  lemma ReadBlockOf(name: string, rest: string)
    requires '/' !in name
    ensures ReadBlock(Block(name) + rest) == Some((Listed(Humanize(name), name), rest))
  {
    var h := Humanize(name);
    HumanizeKeepsOthers(name, '/');
    var r2 := name + BlockClose + rest;
    var s := Block(name) + rest;
    assert s == BlockOpen + (h + TitleClose + r2);
    assert s[|BlockOpen|..] == h + TitleClose + r2;
    ReadTitleOf(h, r2);
    ReadNameOf(name, rest);
  }

  /** The blocks of a list read back as exactly that list's titles and names. */
  lemma {:induction false} ParseBlocksOf(names: seq<string>)
    requires forall n :: n in names ==> '/' !in n
    ensures ParseBlocks(Blocks(names)) == Some(Listings(names))
    decreases |names|
  {
    if names != [] {
      ParseBlocksOf(names[1..]);
      ReadBlockOf(names[0], Blocks(names[1..]));
      BlocksStart(names);
    }
  }

  /**
   * The body lists every discovered name exactly once, in order, each under
   * its humanized title and linking to `./<name>/`; an empty list gives the
   * placeholder and nothing else.
   */
  lemma IndexBodyRoundTrip(names: seq<string>)
    requires forall n :: n in names ==> '/' !in n
    ensures ParseIndexBody(IndexBody(names)) == Some(Listings(names))
  {
    if names != [] {
      IndexBodyPlaceholder(names);
      ParseBlocksOf(names);
    }
  }

  /** The placeholder appears exactly when there is nothing to list. */
  lemma IndexBodyPlaceholder(names: seq<string>)
    ensures IndexBody(names) == Placeholder <==> names == []
  {
    if names != [] {
      BlocksStart(names);
      assert Placeholder[0] == '<';
    }
  }

  lemma BlocksStart(names: seq<string>)
    requires names != []
    ensures Blocks(names) != [] && Blocks(names)[0] == '\n'
  {
    var n := names[0];
    var b := Block(n);
    assert b == BlockOpen + (Humanize(n) + TitleClose + n + BlockClose);
    assert b[0] == '\n';
    assert Blocks(names) == b + Blocks(names[1..]);
  }
}
