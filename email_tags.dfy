/**
 * The email template-tag registry and expander: a table from tag name to
 * (tag, description, handler), and the pass that replaces every `{name}`
 * in a text by what the handler registered for `name` returns.
 */
module EmailTemplateTags {
  import opened Optional
  import opened OrderedTable
  import opened TagPattern
  import opened Sequences

  /** The arguments a caller hands to one expansion pass, by name. */
  type Args = map<string, string>

  /** The `args` field: the arguments of the pass in progress, or null (None). */
  type PassArgs = Option<Args>

  /** A tag handler: given the pass's arguments and the tag name, the replacement text. */
  type Handler = (PassArgs, string) -> string

  /** The `$func` value given to `add`: one that `is_callable` accepts, or one it rejects. */
  datatype Callback = Callable(handler: Handler) | NotCallable

  /** One registered tag, the array `['tag' => …, 'description' => …, 'func' => …]`. */
  datatype Entry = Entry(tag: string, description: string, func: Handler)

  /** Every entry is stored under its own tag. */
  ghost predicate EntriesNamed(t: Table<Entry>) {
    forall k | k in t.values :: t.values[k].tag == k
  }

  // ---------------------------------------------------------------------
  // The replacement pass
  // ---------------------------------------------------------------------

  /**
   * What `do_tag` gives back for the match `whole` whose capture group is
   * `name`: the handler's result when `name` is registered, the match
   * itself otherwise.
   */
  function TagReplacement(entries: map<string, Entry>, args: PassArgs, whole: string, name: string): (r: string)
    ensures name !in entries ==> r == whole
    ensures name in entries ==> r == entries[name].func(args, name)
  {
    if name in entries then entries[name].func(args, name) else whole
  }

  /** The output of one piece of the pass. */
  function RenderPiece(p: Piece, entries: map<string, Entry>, args: PassArgs): string {
    match p
    case Literal(c) => [c]
    case Placeholder(n) => TagReplacement(entries, args, "{" + n + "}", n)
  }

  /** The output of a sequence of pieces, in order. */
  function Substituted(ps: seq<Piece>, entries: map<string, Entry>, args: PassArgs): string {
    if ps == [] then "" else RenderPiece(ps[0], entries, args) + Substituted(ps[1..], entries, args)
  }

  /**
   * The text the replacement pass produces from `content`. When no match
   * of the pass names a registered tag, in particular when nothing is
   * registered, the output is the input.
   */
  function Expand(content: string, entries: map<string, Entry>, args: PassArgs): (r: string)
    ensures (forall i | 0 <= i < |Scan(content)| && Scan(content)[i].Placeholder? :: Scan(content)[i].name !in entries)
      ==> r == content
    ensures entries == map[] ==> r == content
  {
    SubstitutedUnregistered(Scan(content), entries, args);
    ScanRoundTrip(content);
    Substituted(Scan(content), entries, args)
  }

  lemma SubstitutedCons(p: Piece, ps: seq<Piece>, entries: map<string, Entry>, args: PassArgs)
    ensures Substituted([p] + ps, entries, args) == RenderPiece(p, entries, args) + Substituted(ps, entries, args)
  {
    assert ([p] + ps)[1..] == ps;
  }

  lemma {:induction false} SubstitutedAppend(a: seq<Piece>, b: seq<Piece>, entries: map<string, Entry>, args: PassArgs)
    ensures Substituted(a + b, entries, args) == Substituted(a, entries, args) + Substituted(b, entries, args)
  {
    if a == [] {
      assert a + b == b;
    } else {
      var head := RenderPiece(a[0], entries, args);
      var sa, sb := Substituted(a[1..], entries, args), Substituted(b, entries, args);
      assert Substituted(a + b, entries, args) == head + Substituted(a[1..] + b, entries, args) by {
        assert a + b == [a[0]] + (a[1..] + b);
        SubstitutedCons(a[0], a[1..] + b, entries, args);
      }
      assert Substituted(a[1..] + b, entries, args) == sa + sb by {
        SubstitutedAppend(a[1..], b, entries, args);
      }
      assert Substituted(a, entries, args) == head + sa;
      AppendAssoc(head, sa, sb);
    }
  }

  lemma {:induction false} SubstitutedLiterals(p: string, entries: map<string, Entry>, args: PassArgs)
    ensures Substituted(Literals(p), entries, args) == p
  {
    if p != [] {
      assert Literals(p)[1..] == Literals(p[1..]);
      SubstitutedLiterals(p[1..], entries, args);
      assert p == [p[0]] + p[1..];
    }
  }

  /** One step of the pass: the match at the front of `s` is replaced, or its first character is copied. */
  lemma ExpandUnfold(s: string, entries: map<string, Entry>, args: PassArgs)
    requires s != []
    ensures LeadingTag(s).Some? ==>
      Expand(s, entries, args)
        == TagReplacement(entries, args, "{" + LeadingTag(s).value + "}", LeadingTag(s).value)
           + Expand(s[|LeadingTag(s).value| + 2..], entries, args)
    ensures LeadingTag(s).None? ==> Expand(s, entries, args) == [s[0]] + Expand(s[1..], entries, args)
  {
    var ps := Scan(s);
    assert ps[1..] == Scan(if LeadingTag(s).Some? then s[|LeadingTag(s).value| + 2..] else s[1..]);
  }

  /** Text without `{` is copied to the output unchanged. */
  lemma ExpandPlainText(p: string, s: string, entries: map<string, Entry>, args: PassArgs)
    requires NoOpenBrace(p)
    ensures Expand(p + s, entries, args) == p + Expand(s, entries, args)
  {
    ScanPlainPrefix(p, s);
    SubstitutedAppend(Literals(p), Scan(s), entries, args);
    SubstitutedLiterals(p, entries, args);
  }

  /**
   * A tag at the front is replaced by `do_tag`'s result, and the scan goes
   * on after its `}`: the replacement text itself is never scanned again.
   */
  lemma ExpandTagPrefix(n: string, s: string, entries: map<string, Entry>, args: PassArgs)
    requires IsTagName(n)
    ensures Expand("{" + n + "}" + s, entries, args)
      == TagReplacement(entries, args, "{" + n + "}", n) + Expand(s, entries, args)
  {
    ScanTagPrefix(n, s);
    SubstitutedAppend([Placeholder(n)], Scan(s), entries, args);
  }

  /** `{}` and a brace pair around anything outside the class is never a tag: it is copied as it is. */
  lemma ExpandMalformedPair(n: string, s: string, entries: map<string, Entry>, args: PassArgs)
    requires NoOpenBrace(n) && forall i | 0 <= i < |n| :: n[i] != '}'
    requires !IsTagName(n)
    ensures Expand("{" + n + "}" + s, entries, args) == "{" + n + "}" + Expand(s, entries, args)
  {
    ScanMalformedPair(n, s);
    SubstitutedAppend(Literals("{" + n + "}"), Scan(s), entries, args);
    SubstitutedLiterals("{" + n + "}", entries, args);
  }

  /** In `{{name}}` only the inner `{name}` is a match; the outer braces stay. */
  lemma ExpandDoubleBraces(n: string, entries: map<string, Entry>, args: PassArgs)
    requires IsTagName(n)
    ensures Expand("{{" + n + "}}", entries, args) == "{" + TagReplacement(entries, args, "{" + n + "}", n) + "}"
  {
    var s := "{{" + n + "}}";
    var inner := "{" + n + "}" + "}";
    var replaced := TagReplacement(entries, args, "{" + n + "}", n);
    assert s == "{" + inner && s[1..] == inner;
    assert Expand(s, entries, args) == "{" + Expand(inner, entries, args) by {
      assert LeadingTag(s) == None by {
        assert NameRun(s[1..]) == 0;
      }
      ExpandUnfold(s, entries, args);
    }
    assert Expand(inner, entries, args) == replaced + "}" by {
      ExpandTagPrefix(n, "}", entries, args);
      ExpandPlainText("}", "", entries, args);
      assert "}" + "" == "}";
    }
  }

  /** Pieces whose placeholders are all unregistered come out as the text they stand for. */
  lemma {:induction false} SubstitutedUnregistered(ps: seq<Piece>, entries: map<string, Entry>, args: PassArgs)
    ensures (forall i | 0 <= i < |ps| && ps[i].Placeholder? :: ps[i].name !in entries)
      ==> Substituted(ps, entries, args) == Unscan(ps)
  {
    if ps != [] {
      SubstitutedUnregistered(ps[1..], entries, args);
    }
  }

  /** A second pass over output whose remaining matches are all unregistered changes nothing. */
  lemma ExpandIdempotent(s: string, entries: map<string, Entry>, args: PassArgs)
    requires var out := Expand(s, entries, args);
      forall i | 0 <= i < |Scan(out)| && Scan(out)[i].Placeholder? :: Scan(out)[i].name !in entries
    ensures Expand(Expand(s, entries, args), entries, args) == Expand(s, entries, args)
  {
  }

  /** After `add(n, d, h)`, the text `{n}` expands to `h(args, n)`. */
  lemma ExpandAfterAdd(t: Table<Entry>, n: string, d: string, h: Handler, args: PassArgs)
    requires t.Valid() && IsTagName(n)
    ensures Expand("{" + n + "}", t.Set(n, Entry(n, d, h)).values, args) == h(args, n)
  {
    ExpandTagPrefix(n, "", t.Set(n, Entry(n, d, h)).values, args);
    assert "{" + n + "}" + "" == "{" + n + "}";
  }

  /** After `remove(n)`, the text `{n}` is left as it is. */
  lemma ExpandAfterRemove(t: Table<Entry>, n: string, args: PassArgs)
    requires t.Valid() && IsTagName(n)
    ensures Expand("{" + n + "}", t.Unset(n).values, args) == "{" + n + "}"
  {
    ExpandTagPrefix(n, "", t.Unset(n).values, args);
    assert "{" + n + "}" + "" == "{" + n + "}";
  }

  /**
   * A single tag in running text: the text before and after it, free of
   * `{`, is copied, and the tag is replaced in between.
   */
  lemma ExpandTagInText(p: string, n: string, q: string, entries: map<string, Entry>, args: PassArgs)
    requires NoOpenBrace(p) && IsTagName(n) && NoOpenBrace(q)
    ensures Expand(p + ("{" + n + "}" + q), entries, args)
      == p + (TagReplacement(entries, args, "{" + n + "}", n) + q)
  {
    ExpandPlainText(p, "{" + n + "}" + q, entries, args);
    ExpandTagPrefix(n, q, entries, args);
    ExpandPlainText(q, "", entries, args);
    assert q + "" == q;
  }

  /** A tag is in a well-formed table exactly when some listed entry carries it. */
  lemma ListedTags(t: Table<Entry>, tag: string)
    requires t.Valid() && EntriesNamed(t)
    ensures t.Has(tag) <==> exists i | 0 <= i < |t.keys| :: t.Values()[i].tag == tag
  {
    var vs := t.Values();
    if t.Has(tag) {
      var i := IndexOf(t.keys, tag);
      assert vs[i].tag == tag;
    }
    if exists i | 0 <= i < |t.keys| :: vs[i].tag == tag {
      var i :| 0 <= i < |t.keys| && vs[i].tag == tag;
      assert vs[i] == t.values[t.keys[i]];
      assert t.keys[i] in t.values;
    }
  }

  /** The pass over `s` when the match `{n}` starts it and is replaced by `piece`. */
  lemma ExpandAtTag(s: string, n: string, piece: string, entries: map<string, Entry>, args: PassArgs)
    requires s != [] && LeadingTag(s) == Some(n)
    requires piece == TagReplacement(entries, args, s[..|n| + 2], n)
    ensures |n| + 2 <= |s|
    ensures Expand(s, entries, args) == piece + Expand(s[|n| + 2..], entries, args)
  {
    ExpandUnfold(s, entries, args);
  }

  /** The pass over `s` when no match starts it. */
  lemma ExpandAtLiteral(s: string, entries: map<string, Entry>, args: PassArgs)
    requires s != [] && LeadingTag(s) == None
    ensures Expand(s, entries, args) == [s[0]] + Expand(s[1..], entries, args)
  {
    ExpandUnfold(s, entries, args);
  }

  /** The loop step of the pass: output so far, then the piece for the front of `rest`. */
  lemma ExpandStep(r: string, piece: string, rest: string, next: string, content: string, entries: map<string, Entry>, args: PassArgs)
    requires r + Expand(rest, entries, args) == Expand(content, entries, args)
    requires Expand(rest, entries, args) == piece + Expand(next, entries, args)
    ensures (r + piece) + Expand(next, entries, args) == Expand(content, entries, args)
  {
    AppendAssoc(r, piece, Expand(next, entries, args));
  }

  // ---------------------------------------------------------------------
  // The registry object
  // ---------------------------------------------------------------------

  /**
   * The registry. `tags` is the PHP array of entries keyed by tag name;
   * `args` holds the arguments of the pass in progress and is null (None)
   * outside one.
   */
  class TemplateTags {
    var tags: Table<Entry>
    var args: PassArgs

    /** The table is a well-formed ordered array and every entry sits under its own tag. */
    ghost predicate Valid()
      reads this
    {
      tags.Valid() && EntriesNamed(tags)
    }

    /** A fresh registry holds no tags and no pass arguments. */
    constructor ()
      ensures Valid() && tags == Empty() && args == None
    {
      tags := Empty();
      args := None;
    }

    /**
     * `add`: register `tag` with its description and handler. A handler
     * that is not callable is ignored and the table stays as it was.
     */
    method Add(tag: string, description: string, func: Callback)
      requires Valid()
      modifies this`tags
      ensures Valid()
      ensures func.NotCallable? ==> tags == old(tags)
      ensures func.Callable? ==> tags == old(tags).Set(tag, Entry(tag, description, func.handler))
      ensures func.Callable? ==> EmailTagExists(tag) && tags.values[tag] == Entry(tag, description, func.handler)
    {
      if func.Callable? {
        tags := tags.Set(tag, Entry(tag, description, func.handler));
      }
    }

    /** `remove`: unregister `tag`; a tag that is not registered changes nothing. */
    method Remove(tag: string)
      requires Valid()
      modifies this`tags
      ensures Valid()
      ensures tags == old(tags).Unset(tag)
      ensures !EmailTagExists(tag)
      ensures !old(tags).Has(tag) ==> tags == old(tags)
    {
      if !tags.Has(tag) {
        UnsetAbsentIsNoop(tags, tag);
      }
      tags := tags.Unset(tag);
    }

    /** `email_tag_exists`: some entry that `get_tags` lists carries this tag. */
    function EmailTagExists(tag: string): (b: bool)
      reads this
      requires Valid()
      ensures b <==> exists i | 0 <= i < |tags.keys| :: tags.Values()[i].tag == tag
    {
      ListedTags(tags, tag);
      tags.Has(tag)
    }

    /** `get_tags`: the table itself; each entry it lists is listed under its own tag. */
    function GetTags(): (t: Table<Entry>)
      reads this
      requires Valid()
      ensures t == tags
      ensures t.Valid()
      ensures forall i | 0 <= i < |t.keys| :: t.Values()[i].tag == t.keys[i]
    {
      tags
    }

    /**
     * `do_tag`: the replacement for one match, `whole` being the match and
     * `name` its capture group. The handler gets the `args` field as it
     * stands: the pass's arguments during `do_tags`, None outside a pass.
     */
    function DoTag(whole: string, name: string): (r: string)
      reads this
      ensures !tags.Has(name) ==> r == whole
      ensures tags.Has(name) ==> r == tags.values[name].func(args, name)
    {
      TagReplacement(tags.values, args, whole, name)
    }

    /**
     * `do_tags`: one left-to-right replacement pass over `content`. With no
     * tags registered the content is returned at once and `args` is not
     * touched; otherwise `args` holds `callArgs` for every handler called
     * during the pass and is cleared afterwards.
     */
    method DoTags(content: string, callArgs: Args) returns (r: string)
      requires Valid()
      modifies this`args
      ensures r == Expand(content, tags.values, Some(callArgs))
      ensures tags.Count() == 0 ==> r == content && args == old(args)
      ensures tags.Count() > 0 ==> args == None
    {
      if tags.Count() == 0 {
        return content;
      }
      args := Some(callArgs);
      r := ReplaceTags(content);
      args := None;
    }

    /**
     * The `preg_replace_callback` call of `do_tags`: scans `content` left to
     * right, hands every match to `DoTag` and copies everything else.
     */
    method ReplaceTags(content: string) returns (r: string)
      ensures r == Expand(content, tags.values, args)
    {
      ghost var entries, callArgs := tags.values, args;
      r := "";
      var rest := content;
      while rest != []
        invariant r + Expand(rest, entries, callArgs) == Expand(content, entries, callArgs)
        decreases |rest|
      {
        var found := LeadingTag(rest);
        var piece, next;
        if found.Some? {
          var n := found.value;
          piece := DoTag(rest[..|n| + 2], n);
          next := rest[|n| + 2..];
          ExpandAtTag(rest, n, piece, entries, callArgs);
        } else {
          piece := [rest[0]];
          next := rest[1..];
          ExpandAtLiteral(rest, entries, callArgs);
        }
        ExpandStep(r, piece, rest, next, content, entries, callArgs);
        r, rest := r + piece, next;
      }
    }
  }

  // ---------------------------------------------------------------------
  // The help-text listing
  // ---------------------------------------------------------------------

  /** One line of the list: `{tag} - description<br/>`. */
  function ListLine(e: Entry): (r: string)
    ensures |r| == |e.tag| + |e.description| + 10
    ensures r[..|e.tag| + 2] == "{" + e.tag + "}"
    ensures r[|r| - 5..] == "<br/>"
  {
    "{" + e.tag + "} - " + e.description + "<br/>"
  }

  /** The lines of `entries`, in order, one after another. */
  function Listing(entries: seq<Entry>): (r: string)
    ensures r == "" <==> entries == []
  {
    if entries == [] then "" else ListLine(entries[0]) + Listing(entries[1..])
  }

  lemma ListingCons(e: Entry, es: seq<Entry>)
    ensures Listing([e] + es) == ListLine(e) + Listing(es)
  {
    assert ([e] + es)[1..] == es;
  }

  lemma {:induction false} ListingAppend(a: seq<Entry>, b: seq<Entry>)
    ensures Listing(a + b) == Listing(a) + Listing(b)
  {
    if a == [] {
      assert a + b == b;
    } else {
      var head, la, lb := ListLine(a[0]), Listing(a[1..]), Listing(b);
      assert Listing(a + b) == head + Listing(a[1..] + b) by {
        assert a + b == [a[0]] + (a[1..] + b);
        ListingCons(a[0], a[1..] + b);
      }
      assert Listing(a[1..] + b) == la + lb by {
        ListingAppend(a[1..], b);
      }
      assert Listing(a) == head + la;
      AppendAssoc(head, la, lb);
    }
  }

  /**
   * `affwp_get_emails_tags_list`: the tags of `registry` as help text, one
   * line per tag in `get_tags` order, and the empty string when none is
   * registered.
   */
  method GetEmailsTagsList(registry: TemplateTags) returns (list: string)
    requires registry.Valid()
    ensures list == Listing(registry.GetTags().Values())
    ensures list == "" <==> registry.GetTags().Count() == 0
  {
    list := "";
    var emailTags := registry.GetTags();
    if emailTags.Count() > 0 {
      var entries := emailTags.Values();
      for i := 0 to |entries|
        invariant list == Listing(entries[..i])
      {
        ListingSnoc(entries, i);
        list := list + ListLine(entries[i]);
      }
      assert entries[..|entries|] == entries;
    }
  }

  /** Adding a new tag adds its line at the end of the list. */
  lemma ListingAfterAddNew(t: Table<Entry>, e: Entry)
    requires t.Valid() && !t.Has(e.tag)
    ensures Listing(t.Set(e.tag, e).Values()) == Listing(t.Values()) + ListLine(e)
  {
    SetAppendsNewKey(t, e.tag, e);
    ListingAppend(t.Values(), [e]);
  }

  /** The listing of a prefix grows by one line per entry. */
  lemma ListingSnoc(entries: seq<Entry>, i: nat)
    requires i < |entries|
    ensures Listing(entries[..i + 1]) == Listing(entries[..i]) + ListLine(entries[i])
  {
    assert entries[..i + 1] == entries[..i] + [entries[i]];
    ListingAppend(entries[..i], [entries[i]]);
    assert Listing([entries[i]]) == ListLine(entries[i]) + "";
  }

  /** Replacing the entry at `i` replaces its line and keeps the lines around it. */
  lemma ListingUpdate(vs: seq<Entry>, i: nat, e: Entry)
    requires i < |vs|
    ensures Listing(vs[i := e]) == Listing(vs[..i]) + ListLine(e) + Listing(vs[i + 1..])
  {
    assert vs[i := e] == (vs[..i] + [e]) + vs[i + 1..];
    ListingAppend(vs[..i] + [e], vs[i + 1..]);
    ListingAppend(vs[..i], [e]);
    assert Listing([e]) == ListLine(e) + "";
  }

  /** Re-adding a tag rewrites its line where it stands; every other line stays. */
  lemma ListingAfterOverwrite(t: Table<Entry>, e: Entry)
    requires t.Valid() && t.Has(e.tag)
    ensures var vs, i := t.Values(), IndexOf(t.keys, e.tag);
      Listing(t.Set(e.tag, e).Values()) == Listing(vs[..i]) + ListLine(e) + Listing(vs[i + 1..])
  {
    var vs, i := t.Values(), IndexOf(t.keys, e.tag);
    var after := t.Set(e.tag, e).Values();
    assert after == vs[i := e] by {
      SetOverwriteKeepsPosition(t, e.tag, e);
    }
    assert Listing(vs[i := e]) == Listing(vs[..i]) + ListLine(e) + Listing(vs[i + 1..]) by {
      ListingUpdate(vs, i, e);
    }
  }

  /** Removing a tag deletes its line; every other line stays, in order. */
  lemma ListingAfterRemove(t: Table<Entry>, k: string)
    requires t.Valid() && t.Has(k)
    ensures var vs, i := t.Values(), IndexOf(t.keys, k);
      Listing(t.Unset(k).Values()) == Listing(vs[..i]) + Listing(vs[i + 1..])
  {
    UnsetDropsPosition(t, k);
    var vs, i := t.Values(), IndexOf(t.keys, k);
    ListingAppend(vs[..i], vs[i + 1..]);
  }

  // ---------------------------------------------------------------------
  // Using the registry
  // ---------------------------------------------------------------------

  /** Registering a callable handler for `n` and expanding `{n}` yields the handler's result. */
  method RegisterThenExpand(n: string, d: string, h: Handler, ctx: Args) returns (r: string)
    requires IsTagName(n)
    ensures r == h(Some(ctx), n)
  {
    var registry := new TemplateTags();
    registry.Add(n, d, Callable(h));
    r := registry.DoTags("{" + n + "}", ctx);
    ExpandAfterAdd(Empty(), n, d, h, Some(ctx));
  }

  /** A tag registered and then removed is left as it is by the next expansion. */
  method RemoveThenExpand(n: string, d: string, h: Handler, ctx: Args) returns (r: string)
    requires IsTagName(n)
    ensures r == "{" + n + "}"
  {
    var registry := new TemplateTags();
    registry.Add(n, d, Callable(h));
    ghost var before := registry.tags;
    registry.Remove(n);
    r := registry.DoTags("{" + n + "}", ctx);
    ExpandAfterRemove(before, n, Some(ctx));
  }
}
