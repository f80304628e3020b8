/**
 * The style formatter: a style mapping becomes the inline CSS text
 * `k1: v1; k2: v2; ...`, in the mapping's order, without escaping.
 */
module Styles {
  import opened Strings
  import opened Seqs

  /** A style mapping, as the entries of a dictionary in insertion order. */
  type StyleMap = seq<(string, string)>

  predicate HasKey(styles: StyleMap, key: string) {
    exists i :: 0 <= i < |styles| && styles[i].0 == key
  }

  /** `styles.get(key, default)`: the value stored under `key`, else `default`. */
  function Lookup(styles: StyleMap, key: string, default: string): (r: string)
    ensures HasKey(styles, key) ==> (key, r) in styles
    ensures !HasKey(styles, key) ==> r == default
    decreases |styles|
  {
    if |styles| == 0 then default
    else if styles[0].0 == key then styles[0].1
    else
      assert HasKey(styles, key) ==> HasKey(styles[1..], key) by {
        if HasKey(styles, key) {
          var i :| 0 <= i < |styles| && styles[i].0 == key;
          assert styles[1..][i - 1].0 == key;
        }
      }
      Lookup(styles[1..], key, default)
  }

  /** The entries whose key is not `key`, in their original order. */
  function Without(styles: StyleMap, key: string): (r: StyleMap)
    ensures |r| <= |styles|
    ensures !HasKey(styles, key) ==> r == styles
    decreases |styles|
  {
    if |styles| == 0 then []
    else
      var first, rest := styles[0], styles[1..];
      assert !HasKey(styles, key) ==> !HasKey(rest, key) by {
        if HasKey(rest, key) {
          var i :| 0 <= i < |rest| && rest[i].0 == key;
          assert styles[i + 1].0 == key;
        }
      }
      (if first.0 == key then [] else [first]) + Without(rest, key)
  }

  /**
   * `Without` removes exactly the entries for `key`: none is left, every
   * other entry stays, and nothing new appears.
   */
  lemma {:induction false} WithoutEntries(styles: StyleMap, key: string)
    ensures !HasKey(Without(styles, key), key)
    ensures forall p :: p in Without(styles, key) <==> p in styles && p.0 != key
    decreases |styles|
  {
    if |styles| > 0 {
      var first, rest := styles[0], styles[1..];
      WithoutEntries(rest, key);
      assert forall p :: p in styles <==> p == first || p in rest;
    }
  }

  /** The test the section formatter's comprehension applies to each entry. */
  function OtherKey(key: string): ((string, string)) -> bool {
    (entry: (string, string)) => entry.0 != key
  }

  /**
   * `Without` is the comprehension `[(k, v) for k, v in styles if k != key]`:
   * the entries with another key, in the mapping's order.
   */
  lemma {:induction false} WithoutIsFilter(styles: StyleMap, key: string)
    ensures Without(styles, key) == Filter(OtherKey(key), styles)
    decreases |styles|
  {
    if |styles| > 0 {
      var init, last := styles[..|styles| - 1], styles[|styles| - 1];
      assert styles == init + [last];
      WithoutIsFilter(init, key);
      WithoutSnoc(init, last, key);
    }
  }

  lemma {:induction false} WithoutSnoc(styles: StyleMap, entry: (string, string), key: string)
    ensures Without(styles + [entry], key) == Without(styles, key) + (if entry.0 == key then [] else [entry])
    decreases |styles|
  {
    if |styles| == 0 {
      assert styles + [entry] == [entry];
    } else {
      var first, rest := styles[0], styles[1..];
      assert (styles + [entry])[0] == first && (styles + [entry])[1..] == rest + [entry];
      WithoutSnoc(rest, entry, key);
      assert Without(styles + [entry], key) == (if first.0 == key then [] else [first]) + Without(rest + [entry], key);
    }
  }

  /** Looking up one key does not see the removal of another. */
  lemma {:induction false} LookupWithout(styles: StyleMap, removed: string, key: string, default: string)
    requires removed != key
    ensures Lookup(Without(styles, removed), key, default) == Lookup(styles, key, default)
    decreases |styles|
  {
    if |styles| > 0 {
      var first, rest := styles[0], styles[1..];
      LookupWithout(rest, removed, key, default);
      assert Lookup(styles, key, default) == if first.0 == key then first.1 else Lookup(rest, key, default);
      if first.0 == removed {
        assert Without(styles, removed) == Without(rest, removed);
      } else {
        var w := Without(styles, removed);
        assert w == [first] + Without(rest, removed);
        assert w[0] == first && w[1..] == Without(rest, removed);
      }
    }
  }

  /** One CSS declaration, `key: value`. */
  function Declaration(entry: (string, string)): string {
    entry.0 + ": " + entry.1
  }

  function Declarations(styles: StyleMap): (r: seq<string>)
    ensures |r| == |styles|
  {
    seq(|styles|, i requires 0 <= i < |styles| => Declaration(styles[i]))
  }

  /**
   * The row and column formatter: every entry, `width` included, as
   * `key: value`, joined with `; `.
   */
  function FormatStyle(styles: StyleMap): string {
    Join(Declarations(styles), "; ")
  }

  /** The section formatter: like `FormatStyle`, but every `width` entry is dropped. */
  function SectionStyle(styles: StyleMap): string {
    FormatStyle(Without(styles, "width"))
  }

  /**
   * The formatted text keeps the mapping's order: appending an entry appends
   * its declaration, after a `; ` unless it is the first one.
   */
  lemma FormatStyleSnoc(styles: StyleMap, entry: (string, string))
    ensures FormatStyle(styles + [entry]) ==
      (if styles == [] then "" else FormatStyle(styles) + "; ") + entry.0 + ": " + entry.1
  {
    var d := Declarations(styles + [entry]);
    assert d[..|d| - 1] == Declarations(styles);
  }

  /** An empty mapping, or one that holds only `width` entries, formats as a section to nothing. */
  lemma SectionStyleOnlyWidth(styles: StyleMap)
    requires forall i :: 0 <= i < |styles| ==> styles[i].0 == "width"
    ensures SectionStyle(styles) == ""
  {
    var r := Without(styles, "width");
    WithoutEntries(styles, "width");
  }

  /** Characters of the declarations plus two for each separator slot. */
  function Footprint(styles: StyleMap): nat {
    TotalLength(Declarations(styles)) + 2 * |styles|
  }

  lemma {:induction false} FormatStyleLength(styles: StyleMap)
    ensures |FormatStyle(styles)| == if styles == [] then 0 else Footprint(styles) - 2
  {
    JoinLength(Declarations(styles), "; ");
  }

  lemma FootprintCons(entry: (string, string), styles: StyleMap)
    ensures Footprint([entry] + styles) == |entry.0| + |entry.1| + 4 + Footprint(styles)
  {
    var d := Declarations([entry] + styles);
    assert d == [Declaration(entry)] + Declarations(styles);
    TotalLengthCons(Declaration(entry), Declarations(styles));
  }

  lemma {:induction false} TotalLengthCons(part: string, parts: seq<string>)
    ensures TotalLength([part] + parts) == |part| + TotalLength(parts)
    decreases |parts|
  {
    if |parts| > 0 {
      var all := [part] + parts;
      assert all[..|all| - 1] == [part] + parts[..|parts| - 1];
      TotalLengthCons(part, parts[..|parts| - 1]);
    }
  }

  /** Dropping the entries for a key present in the mapping removes at least one declaration. */
  lemma {:induction false} WithoutFootprint(styles: StyleMap, key: string)
    ensures Footprint(Without(styles, key)) <= Footprint(styles)
    ensures HasKey(styles, key) ==> Footprint(Without(styles, key)) + |key| + 4 <= Footprint(styles)
    decreases |styles|
  {
    if |styles| > 0 {
      var first, rest := styles[0], styles[1..];
      assert styles == [first] + rest;
      WithoutFootprint(rest, key);
      FootprintCons(first, rest);
      if first.0 == key {
        assert Without(styles, key) == Without(rest, key);
      } else {
        assert Without(styles, key) == [first] + Without(rest, key);
        FootprintCons(first, Without(rest, key));
        if HasKey(styles, key) {
          var i :| 0 <= i < |styles| && styles[i].0 == key;
          assert rest[i - 1].0 == key;
        }
      }
    }
  }

  /**
   * Sections and rows/columns format the same mapping identically exactly
   * when it has no `width` entry: the section formatter leaves width out,
   * the row and column formatter keeps it.
   */
  lemma SectionStyleKeepsAllButWidth(styles: StyleMap)
    ensures SectionStyle(styles) == FormatStyle(styles) <==> !HasKey(styles, "width")
  {
    if HasKey(styles, "width") {
      var rest := Without(styles, "width");
      WithoutFootprint(styles, "width");
      FormatStyleLength(styles);
      FormatStyleLength(rest);
      assert styles != [];
      assert |FormatStyle(rest)| < |FormatStyle(styles)|;
    }
  }
}
