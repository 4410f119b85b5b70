/** Dublin Core meta data: `add_meta(name, value, **attrs)` records a triple and
    `get_meta_tags` turns each into (begin tag, value, end tag). */
module Metadata {

  /** One `add_meta` call. The keyword arguments are given in the order the dictionary
      yields them. */
  datatype Meta = Meta(name: string, value: string, attrs: seq<(string, string)>)

  /** ` opf:<name>="<value>"`. */
  function AttrText(attr: (string, string)): string {
    " opf:" + attr.0 + "=\"" + attr.1 + "\""
  }

  /** The attribute texts one after the other. */
  function AttrsText(attrs: seq<(string, string)>): string {
    if attrs == [] then "" else AttrsText(attrs[..|attrs| - 1]) + AttrText(attrs[|attrs| - 1])
  }

  /** `<dc:name` with the attributes, closed by `>`. */
  function BeginTag(m: Meta): (r: string)
    ensures "<dc:" + m.name <= r && |r| > 4 + |m.name| && r[|r| - 1] == '>'
  {
    "<dc:" + m.name + AttrsText(m.attrs) + ">"
  }

  /** The closing tag of the same element. */
  function EndTag(m: Meta): (r: string)
    ensures "</dc:" + m.name <= r && |r| == 6 + |m.name| && r[|r| - 1] == '>'
  {
    "</dc:" + m.name + ">"
  }

  /** The tags `get_meta_tags` returns for the recorded meta data, in the order recorded. */
  function MetaTags(meta: seq<Meta>): (r: seq<(string, string, string)>)
    ensures |r| == |meta|
  {
    if meta == [] then []
    else
      var m := meta[|meta| - 1];
      MetaTags(meta[..|meta| - 1]) + [(BeginTag(m), m.value, EndTag(m))]
  }

  /** One tag triple per meta datum, in order, with the value passed through unchanged and
      begin and end tags naming the datum. */
  lemma {:induction false} MetaTagsAt(meta: seq<Meta>, k: nat)
    requires k < |meta|
    ensures |MetaTags(meta)| == |meta|
    ensures MetaTags(meta)[k] == (BeginTag(meta[k]), meta[k].value, EndTag(meta[k]))
    decreases |meta|
  {
    var front := meta[..|meta| - 1];
    if k < |meta| - 1 {
      MetaTagsAt(front, k);
    } else if |front| > 0 {
      MetaTagsAt(front, 0);
    }
  }

  /** The attributes' texts are laid end to end: the text of the first j attributes is a
      prefix of the text of them all. */
  lemma {:induction false} AttrsTextPrefix(attrs: seq<(string, string)>, j: nat)
    requires j <= |attrs|
    ensures AttrsText(attrs[..j]) <= AttrsText(attrs)
    decreases |attrs|
  {
    if j < |attrs| {
      var front := attrs[..|attrs| - 1];
      assert attrs[..j] == front[..j];
      AttrsTextPrefix(front, j);
      var whole := AttrsText(front) + AttrText(attrs[|attrs| - 1]);
      assert AttrsText(front) <= whole;
    } else {
      assert attrs[..j] == attrs;
    }
  }

  /** A begin tag opens with `<dc:` and the name, closes with `>`, and holds each
      attribute's text in the order given: the k-th attribute's text follows the name and
      the texts of the attributes before it. */
  lemma BeginTagShape(m: Meta, k: nat)
    requires k < |m.attrs|
    ensures "<dc:" + m.name + AttrsText(m.attrs[..k]) + AttrText(m.attrs[k]) <= BeginTag(m)
    ensures BeginTag(m)[|BeginTag(m)| - 1] == '>'
  {
    var head := "<dc:" + m.name;
    AttrsTextPrefix(m.attrs, k + 1);
    assert m.attrs[..k + 1][..k] == m.attrs[..k];
    var pre := AttrsText(m.attrs[..k + 1]);
    assert pre == AttrsText(m.attrs[..k]) + AttrText(m.attrs[k]);
    var all := AttrsText(m.attrs);
    assert head + pre <= head + all + ">" by {
      assert (head + all + ">")[..|head + pre|] == head + pre by {
        assert all[..|pre|] == pre;
      }
    }
    assert head + pre == head + AttrsText(m.attrs[..k]) + AttrText(m.attrs[k]);
  }

  lemma BeginTagWithoutAttrs(m: Meta)
    requires m.attrs == []
    ensures BeginTag(m) == "<dc:" + m.name + ">"
  {
    assert AttrsText(m.attrs) == "";
  }

  /** The end tag closes the element the begin tag opens. */
  lemma EndTagMatches(m: Meta)
    ensures var b, e := BeginTag(m), EndTag(m);
            b[1..4 + |m.name|] == e[2..|e| - 1] == "dc:" + m.name
  {
    var b, e := BeginTag(m), EndTag(m);
    assert b == "<" + ("dc:" + m.name) + (AttrsText(m.attrs) + ">");
    assert e == "</" + ("dc:" + m.name) + ">";
  }
}
