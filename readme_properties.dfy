/**
 * What the documentation model promises, stated over the functions that
 * specify the constructor's collections and the formatting accessors.
 */
module ReadmeProperties {
  import opened RubyText
  import opened PathOrder
  import opened KnifeCookbookDoc

  // ---------------------------------------------------------------------
  // Constraint formatting

  /** The three standard cases: the default range is never shown, another
      range is shown only when constraints are switched on. */
  lemma FormatConstraintExamples()
    ensures FormatConstraint(true, "foo", ">= 0.0.0") == "foo"
    ensures FormatConstraint(true, "foo", "~> 1.2") == "foo (~> 1.2)"
    ensures FormatConstraint(false, "foo", "~> 1.2") == "foo"
  {
  }

  /** With constraints switched off a formatted group is just the names. */
  lemma {:induction false} FormatConstraintsHidden(pairs: seq<(string, string)>)
    ensures FormatConstraints(false, pairs) == seq(|pairs|, i requires 0 <= i < |pairs| => pairs[i].0)
  {
    var r := FormatConstraints(false, pairs);
    forall i | 0 <= i < |pairs|
      ensures r[i] == pairs[i].0
    {
    }
  }

  /** Every displayed platform name is capitalised, and it is the declared
      name up to ASCII case. */
  lemma {:induction false} CapitalizeShape(s: string)
    ensures |Capitalize(s)| == |s|
    ensures IsCapitalized(Capitalize(s))
    ensures forall i :: 0 <= i < |s| ==> Downcase(Capitalize(s)[i]) == Downcase(s[i])
  {
    var c := Capitalize(s);
    if s != [] {
      assert c[0] == Upcase(s[0]);
      forall i | 0 < i < |s|
        ensures c[i] == Downcase(s[i])
      {
      }
    }
  }

  /** Capitalising twice changes nothing more. */
  lemma {:induction false} CapitalizeIdempotent(s: string)
    ensures Capitalize(Capitalize(s)) == Capitalize(s)
  {
    var c := Capitalize(s);
    if s != [] {
      assert Capitalize(c)[0] == Upcase(Upcase(s[0])) == Upcase(s[0]);
      forall i | 0 < i < |s|
        ensures Capitalize(c)[i] == c[i]
      {
        assert Capitalize(c)[i] == Downcase(c[i]) == Downcase(Downcase(s[i]));
      }
    }
  }

  // ---------------------------------------------------------------------
  // Attribute paths

  /** A no-op `gsub`: a string without the character is left alone. */
  lemma {:induction false} ReplaceAllAbsent(s: string, c: char, t: string)
    requires c !in s
    ensures ReplaceAll(s, c, t) == s
    decreases |s|
  {
    if s != [] {
      assert forall k :: 0 <= k < |s[1..]| ==> s[1..][k] == s[k + 1];
      ReplaceAllAbsent(s[1..], c, t);
      assert s == [s[0]] + s[1..];
    }
  }

  /** Replacing each `/` by `']['` inside `['…']` gives one bracketed index
      per slash-separated segment. */
  lemma {:induction false} BracketedSegments(s: string)
    ensures "['" + ReplaceAll(s, '/', "']['") + "']" == Brackets(Split(s, '/'))
    decreases |s|
  {
    if s != [] {
      BracketedSegments(s[1..]);
      var rest := Split(s[1..], '/');
      var tail := ReplaceAll(s[1..], '/', "']['");
      if s[0] == '/' {
        assert Split(s, '/') == [""] + rest;
        assert ReplaceAll(s, '/', "']['") == "']['" + tail;
        BracketedEmpty(tail, rest);
      } else {
        var pieces := [[s[0]] + rest[0]] + rest[1..];
        assert Split(s, '/') == pieces;
        assert ReplaceAll(s, '/', "']['") == [s[0]] + tail;
        BracketedCons(s[0], tail, rest);
      }
    }
  }

  /** A leading `/` opens an empty first segment. */
  lemma BracketedEmpty(tail: string, rest: seq<string>)
    requires "['" + tail + "']" == Brackets(rest)
    ensures "['" + ("']['" + tail) + "']" == Brackets([""] + rest)
  {
    assert ([""] + rest)[1..] == rest;
    assert Brackets([""] + rest) == "['']" + Brackets(rest);
    assert "['" + ("']['" + tail) + "']" == "['']" + ("['" + tail + "']");
  }

  /** A character in front of the first segment goes inside its brackets. */
  lemma BracketedCons(x: char, tail: string, rest: seq<string>)
    requires |rest| >= 1
    requires "['" + tail + "']" == Brackets(rest)
    ensures "['" + ([x] + tail) + "']" == Brackets([[x] + rest[0]] + rest[1..])
  {
    var pieces := [[x] + rest[0]] + rest[1..];
    assert pieces[1..] == rest[1..];
    ConsInside("['", "']", x, tail, rest[0], Brackets(rest[1..]));
  }

  /** If `open + tail + close` spells `open + first + close + more`, then
      it still does with one more character in front of `tail` and `first`. */
  lemma ConsInside(open: string, close: string, x: char, tail: string, first: string, more: string)
    requires open + tail + close == open + first + close + more
    ensures open + ([x] + tail) + close == open + ([x] + first) + close + more
  {
    assert tail + close == (open + tail + close)[|open|..];
    assert first + close + more == (open + first + close + more)[|open|..];
    calc {
      open + ([x] + tail) + close;
      open + [x] + (tail + close);
      open + [x] + (first + close + more);
      open + ([x] + first) + close + more;
    }
  }

  /** A metadata attribute key is displayed as `node` followed by one
      `['segment']` per slash-separated segment of the key, in order. */
  lemma AttributePathSegments(key: string)
    ensures AttributePath(key) == "node" + Brackets(Split(key, '/'))
  {
    BracketedSegments(key);
    assert AttributePath(key) == "node" + ("['" + ReplaceAll(key, '/', "']['") + "']");
  }

  /** A key without a slash is a single index. */
  lemma AttributePathPlain(key: string)
    requires '/' !in key
    ensures AttributePath(key) == "node['" + key + "']"
  {
    ReplaceAllAbsent(key, '/', "']['");
  }

  /** A two-level key `a/b` becomes `node['a']['b']`. */
  lemma AttributePathTwoLevels(a: string, b: string)
    requires '/' !in a && '/' !in b
    ensures AttributePath(a + "/" + b) == "node['" + a + "']['" + b + "']"
  {
    var sep := "']['";
    var slashB := ['/'] + b;
    assert a + "/" + b == a + slashB;
    ReplaceAllAppend(a, slashB, '/', sep);
    ReplaceAllAbsent(a, '/', sep);
    ReplaceAllAbsent(b, '/', sep);
    assert slashB[1..] == b;
    assert ReplaceAll(slashB, '/', sep) == sep + b;
    assert ReplaceAll(a + "/" + b, '/', sep) == a + (sep + b);
  }

  /** `gsub` works piece by piece. */
  lemma {:induction false} ReplaceAllAppend(a: string, b: string, c: char, t: string)
    ensures ReplaceAll(a + b, c, t) == ReplaceAll(a, c, t) + ReplaceAll(b, c, t)
    decreases |a|
  {
    if a != [] {
      assert (a + b)[1..] == a[1..] + b;
      ReplaceAllAppend(a[1..], b, c, t);
    } else {
      assert a + b == b;
    }
  }

  // ---------------------------------------------------------------------
  // Attribute aggregation

  /** The attribute files' entries are those of each file in turn: the
      entries of a longer listing extend those of a shorter one. */
  lemma {:induction false} FileAttributesAppend(a: seq<string>, b: seq<string>, decls: string -> seq<AttributeEntry>)
    ensures FileAttributes(a + b, decls) == FileAttributes(a, decls) + FileAttributes(b, decls)
    decreases |b|
  {
    if b == [] {
      assert a + b == a;
    } else {
      var b', last := b[..|b| - 1], b[|b| - 1];
      assert (a + b)[..|a + b| - 1] == a + b';
      assert (a + b)[|a + b| - 1] == last;
      assert FileAttributes(a + b, decls) == FileAttributes(a + b', decls) + decls(last);
      assert FileAttributes(b, decls) == FileAttributes(b', decls) + decls(last);
      FileAttributesAppend(a, b', decls);
    }
  }

  /** Each attribute file contributes its own entries as one block, at its
      place in the listing; nothing is merged with other files' entries. */
  lemma FileAttributesBlock(before: seq<string>, file: string, after: seq<string>, decls: string -> seq<AttributeEntry>)
    ensures FileAttributes(before + [file] + after, decls)
         == FileAttributes(before, decls) + decls(file) + FileAttributes(after, decls)
  {
    FileAttributesAppend(before + [file], after, decls);
    assert (before + [file])[..|before + [file]| - 1] == before;
  }

  /** The attribute list: one entry per metadata attribute, in metadata
      order, then every entry of the attribute files; its length is the sum
      of the two counts, so no duplicate is ever dropped. */
  lemma AttributeListLayout(attrs: seq<(string, map<string, Value>)>, files: seq<string>, decls: string -> seq<AttributeEntry>)
    ensures |AttributeList(attrs, files, decls)| == |attrs| + AttributeCount(files, decls)
    ensures forall i :: 0 <= i < |attrs| ==> AttributeList(attrs, files, decls)[i] == MetadataAttribute(attrs[i].0, attrs[i].1)
    ensures AttributeList(attrs, files, decls)[|attrs|..] == FileAttributes(files, decls)
  {
    var r := AttributeList(attrs, files, decls);
    assert r == MetadataAttributes(attrs) + FileAttributes(files, decls);
    assert r[|attrs|..] == FileAttributes(files, decls);
  }

  /** A metadata attribute `db/user` and one attribute file declaring
      `node['app']['port']` give exactly those two entries, metadata first. */
  lemma AttributeListExample(options: map<string, Value>, file: string, port: AttributeEntry)
    requires port.name == "node['app']['port']"
    ensures AttributeList([("db/user", options)], [file], f => if f == file then [port] else [])
         == [MetadataAttribute("db/user", options), port]
  {
    var decls: string -> seq<AttributeEntry> := f => if f == file then [port] else [];
    assert [file][..0] == [];
    assert FileAttributes([file], decls) == [port];
  }

  // ---------------------------------------------------------------------
  // Resources and definitions

  /** The resources are the sorted listing, one per file: their paths are in
      order and are exactly the listed paths, each owned by the cookbook. */
  lemma ResourcesFollowListing(cookbook: string, listing: seq<string>)
    ensures |ResourceList(cookbook, Sort(listing))| == |listing|
    ensures forall i, j :: 0 <= i < j < |listing| ==>
      LexLe(ResourceList(cookbook, Sort(listing))[i].path, ResourceList(cookbook, Sort(listing))[j].path)
    ensures multiset(seq(|listing|, i requires 0 <= i < |listing| => ResourceList(cookbook, Sort(listing))[i].path)) == multiset(listing)
    ensures forall i :: 0 <= i < |listing| ==> ResourceList(cookbook, Sort(listing))[i].cookbook == cookbook
  {
    var sorted := Sort(listing);
    SortSorted(listing);
    SortPermutation(listing);
    assert |sorted| == |multiset(sorted)| == |listing|;
    var r := ResourceList(cookbook, sorted);
    assert seq(|listing|, i requires 0 <= i < |listing| => r[i].path) == sorted;
  }

  /** The definitions are the sorted listing, one per file, each named after
      its file. */
  lemma DefinitionsFollowListing(listing: seq<string>)
    ensures |DefinitionList(Sort(listing))| == |listing|
    ensures forall i, j :: 0 <= i < j < |listing| ==>
      LexLe(DefinitionList(Sort(listing))[i].path, DefinitionList(Sort(listing))[j].path)
    ensures multiset(seq(|listing|, i requires 0 <= i < |listing| => DefinitionList(Sort(listing))[i].path)) == multiset(listing)
    ensures forall i :: 0 <= i < |listing| ==>
      DefinitionList(Sort(listing))[i].name == DefinitionName(DefinitionList(Sort(listing))[i].path)
  {
    var sorted := Sort(listing);
    SortSorted(listing);
    SortPermutation(listing);
    assert |sorted| == |multiset(sorted)| == |listing|;
    var r := DefinitionList(sorted);
    var paths := seq(|listing|, i requires 0 <= i < |listing| => r[i].path);
    forall i | 0 <= i < |listing|
      ensures paths[i] == sorted[i] && r[i].name == DefinitionName(r[i].path)
    {
    }
    assert paths == sorted;
  }

  /** The last `/` of a path sits in front of its base name. */
  lemma BaseNameOf(dir: string, base: string)
    requires '/' !in base
    ensures BaseName(dir + "/" + base) == base
  {
    assert dir + "/" + base == dir + ['/'] + base;
    AfterLastSplit(dir, '/', base);
  }

  /** `dir/definitions/apache_site.rb` defines `apache_site`. */
  lemma DefinitionNameOfPath(dir: string, base: string)
    requires '/' !in base && '.' !in base && base != []
    ensures DefinitionName(dir + "/definitions/" + base + ".rb") == base
  {
    var file := base + ".rb";
    assert file == base + "." + "rb";
    assert forall k :: 0 <= k < |file| && file[k] == '/' ==> k >= |base|;
    assert '/' !in file;
    assert dir + "/definitions/" + base + ".rb" == (dir + "/definitions") + "/" + file;
    BaseNameOf(dir + "/definitions", file);
    assert base[0] in base;
    StripExtensionOf(base, "rb");
  }

  // ---------------------------------------------------------------------
  // Fragments

  /** The fragment keys are exactly the keys of the listed files. */
  lemma {:induction false} FragmentKeys(files: seq<string>, read: string -> string)
    ensures FragmentMap(files, read).Keys == set f | f in files :: FragmentKey(f)
    decreases |files|
  {
    if files != [] {
      var init := files[..|files| - 1];
      var last := files[|files| - 1];
      FragmentKeys(init, read);
      assert files == init + [last];
      assert (set f | f in files :: FragmentKey(f)) == (set f | f in init :: FragmentKey(f)) + {FragmentKey(last)};
    }
  }

  /** `files[i]` has key `key` and no later file has it. */
  ghost predicate IsLastWithKey(files: seq<string>, key: string, i: int)
  {
    0 <= i < |files| && FragmentKey(files[i]) == key
    && forall j :: i < j < |files| ==> FragmentKey(files[j]) != key
  }

  /** On a key shared by several files the last of them wins: the stored
      text is that of a file with this key after which no file has it. */
  lemma {:induction false} FragmentLastWins(files: seq<string>, read: string -> string, key: string)
    requires key in FragmentMap(files, read)
    ensures exists i :: IsLastWithKey(files, key, i) && FragmentMap(files, read)[key] == read(files[i])
    decreases |files|
  {
    assert files != [];
    var init := files[..|files| - 1];
    var last := files[|files| - 1];
    var m' := FragmentMap(init, read);
    assert files == init + [last];
    assert FragmentMap(files, read) == m'[FragmentKey(last) := read(last)];
    if FragmentKey(last) == key {
      assert IsLastWithKey(files, key, |files| - 1);
    } else {
      assert key in m' && FragmentMap(files, read)[key] == m'[key];
      FragmentLastWins(init, read, key);
      var i :| IsLastWithKey(init, key, i) && m'[key] == read(init[i]);
      LastWithKeyExtend(init, last, key, i);
      assert files[i] == init[i];
    }
  }

  /** A file with another key, added at the end, does not displace the last
      file with `key`. */
  lemma LastWithKeyExtend(init: seq<string>, last: string, key: string, i: int)
    requires IsLastWithKey(init, key, i) && FragmentKey(last) != key
    ensures IsLastWithKey(init + [last], key, i)
  {
    var files := init + [last];
    forall j | i < j < |files|
      ensures FragmentKey(files[j]) != key
    {
      if j < |init| {
        assert files[j] == init[j];
      }
    }
  }

  /** `dir/doc/usage.md` is stored under `usage`. */
  lemma FragmentKeyOfPath(dir: string, base: string)
    requires '/' !in base && base != []
    ensures FragmentKey(dir + "/doc/" + base + ".md") == base
  {
    var file := base + ".md";
    assert forall k :: 0 <= k < |file| && file[k] == '/' ==> k >= |base|;
    assert '/' !in file;
    assert dir + "/doc/" + base + ".md" == (dir + "/doc") + "/" + file;
    BaseNameOf(dir + "/doc", file);
    assert file[|file| - 3..] == ".md";
    assert file[..|file| - 3] == base;
  }

  /** `intro.md` and `usage.md` give exactly the keys `intro` and `usage`,
      each holding its own file's text. */
  lemma FragmentExample(dir: string, read: string -> string)
    ensures FragmentMap([dir + "/doc/intro.md", dir + "/doc/usage.md"], read)
         == map["intro" := read(dir + "/doc/intro.md"), "usage" := read(dir + "/doc/usage.md")]
  {
    ExampleFragmentKeys(dir);
    FragmentMapPair(dir + "/doc/intro.md", dir + "/doc/usage.md", read);
  }

  /** The keys of the two doc files in `FragmentExample`. */
  lemma ExampleFragmentKeys(dir: string)
    ensures FragmentKey(dir + "/doc/intro.md") == "intro"
    ensures FragmentKey(dir + "/doc/usage.md") == "usage"
  {
    assert FragmentKey(dir + "/doc/intro.md") == "intro" by {
      FragmentKeyOfPath(dir, "intro");
      assert dir + "/doc/" + "intro" + ".md" == dir + "/doc/intro.md";
    }
    assert FragmentKey(dir + "/doc/usage.md") == "usage" by {
      FragmentKeyOfPath(dir, "usage");
      assert dir + "/doc/" + "usage" + ".md" == dir + "/doc/usage.md";
    }
  }

  /** Two doc files: the second one's entry is written over the first's. */
  lemma FragmentMapPair(first: string, second: string, read: string -> string)
    ensures FragmentMap([first, second], read)
         == map[FragmentKey(first) := read(first)][FragmentKey(second) := read(second)]
  {
    FragmentMapSingle(first, read);
    assert [first, second][..1] == [first];
  }

  /** One doc file gives one fragment. */
  lemma FragmentMapSingle(file: string, read: string -> string)
    ensures FragmentMap([file], read) == map[FragmentKey(file) := read(file)]
  {
    assert [file][..0] == [];
  }

  // ---------------------------------------------------------------------
  // Recipes

  /** Declared recipes decide alone: the recipe directory's listing makes no
      difference, and the list follows the declarations one for one. */
  lemma DeclaredRecipesIgnoreListing(cookbookDir: string, metadata: Metadata, a: seq<string>, b: seq<string>)
    requires |metadata.recipes| != 0
    ensures RecipeList(cookbookDir, metadata, a) == RecipeList(cookbookDir, metadata, b)
    ensures |RecipeList(cookbookDir, metadata, a)| == |metadata.recipes|
    ensures forall i :: 0 <= i < |metadata.recipes| ==>
      RecipeList(cookbookDir, metadata, a)[i].name == metadata.recipes[i].0
      && RecipeList(cookbookDir, metadata, a)[i].description == Some(metadata.recipes[i].1)
  {
  }

  /** Without declared recipes, the list is the scan of the listing. */
  lemma RecipesScannedWhenUndeclared(cookbookDir: string, metadata: Metadata, files: seq<string>)
    requires |metadata.recipes| == 0
    ensures RecipeList(cookbookDir, metadata, files) == ScannedRecipes(metadata.name, files)
  {
  }

  /** A declared `cookbook::recipe` lives in `recipes/recipe.rb`. */
  lemma RecipePathOfQualifiedName(cookbookDir: string, cookbook: string, recipe: string)
    requires ':' !in recipe
    ensures RecipePath(cookbookDir, cookbook + "::" + recipe) == cookbookDir + "/recipes/" + recipe + ".rb"
  {
    assert cookbook + "::" + recipe == (cookbook + ":") + [':'] + recipe;
    AfterLastSplit(cookbook + ":", ':', recipe);
  }

  /** A declared name without a colon is used whole. */
  lemma RecipePathOfPlainName(cookbookDir: string, name: string)
    requires ':' !in name
    ensures RecipePath(cookbookDir, name) == cookbookDir + "/recipes/" + name + ".rb"
  {
    AfterLastAbsent(name, ':');
  }

  /** `recipe` is what some listed, non-private file of `files` gives. */
  ghost predicate ScannedFrom(cookbook: string, files: seq<string>, recipe: Recipe)
  {
    exists j :: 0 <= j < |files| && !IsPrivateRecipe(files[j]) && recipe == ScannedRecipe(cookbook, files[j])
  }

  /** Every scanned recipe comes from a listed, non-private file and is
      named `cookbook::base`, without a description. */
  lemma {:induction false} ScannedRecipesSound(cookbook: string, files: seq<string>)
    ensures forall i :: 0 <= i < |ScannedRecipes(cookbook, files)| ==>
      ScannedFrom(cookbook, files, ScannedRecipes(cookbook, files)[i])
    decreases |files|
  {
    if files != [] {
      var init := files[..|files| - 1];
      var last := files[|files| - 1];
      ScannedRecipesSound(cookbook, init);
      var r := ScannedRecipes(cookbook, files);
      var r' := ScannedRecipes(cookbook, init);
      forall i | 0 <= i < |r|
        ensures ScannedFrom(cookbook, files, r[i])
      {
        if i < |r'| {
          assert ScannedFrom(cookbook, init, r'[i]);
          var j :| 0 <= j < |init| && !IsPrivateRecipe(init[j]) && r'[i] == ScannedRecipe(cookbook, init[j]);
          assert files[j] == init[j];
          assert r[i] == r'[i];
        } else {
          assert !IsPrivateRecipe(last) && r == r' + [ScannedRecipe(cookbook, last)];
          assert files[|files| - 1] == last;
        }
      }
    }
  }

  /** Every listed, non-private file gives a scanned recipe. */
  lemma {:induction false} ScannedRecipesComplete(cookbook: string, files: seq<string>, j: nat)
    requires j < |files| && !IsPrivateRecipe(files[j])
    ensures exists i :: (0 <= i < |ScannedRecipes(cookbook, files)|
      && ScannedRecipes(cookbook, files)[i] == Recipe(cookbook + "::" + RecipeBaseName(files[j]), None, files[j]))
    decreases |files|
  {
    var init := files[..|files| - 1];
    var r := ScannedRecipes(cookbook, files);
    var r' := ScannedRecipes(cookbook, init);
    if j == |files| - 1 {
      assert r[|r| - 1] == ScannedRecipe(cookbook, files[j]);
    } else {
      assert init[j] == files[j];
      ScannedRecipesComplete(cookbook, init, j);
      var i :| 0 <= i < |r'| && r'[i] == Recipe(cookbook + "::" + RecipeBaseName(files[j]), None, files[j]);
      assert r[i] == r'[i];
    }
  }

  /** `idx` picks out, in increasing order, exactly the non-private files of
      `files`, and the scanned recipes are the recipes of those files, one
      per file. */
  ghost predicate ScannedAt(cookbook: string, files: seq<string>, idx: seq<nat>)
  {
    var r := ScannedRecipes(cookbook, files);
    |idx| == |r|
    && (forall i :: 0 <= i < |idx| ==>
          idx[i] < |files| && !IsPrivateRecipe(files[idx[i]]) && r[i] == ScannedRecipe(cookbook, files[idx[i]]))
    && (forall i, k :: 0 <= i < k < |idx| ==> idx[i] < idx[k])
    && (forall j :: 0 <= j < |files| && !IsPrivateRecipe(files[j]) ==> j in idx)
  }

  /** The scan gives exactly one recipe per non-private file, in listing
      order, and nothing else. */
  lemma {:induction false} ScannedRecipesExact(cookbook: string, files: seq<string>)
    ensures exists idx :: ScannedAt(cookbook, files, idx)
    decreases |files|
  {
    if files == [] {
      assert ScannedAt(cookbook, files, []);
    } else {
      var init := files[..|files| - 1];
      var last := files[|files| - 1];
      assert files == init + [last];
      ScannedRecipesExact(cookbook, init);
      var idx': seq<nat> :| ScannedAt(cookbook, init, idx');
      if IsPrivateRecipe(last) {
        ScannedAtSkip(cookbook, init, last, idx');
      } else {
        ScannedAtKeep(cookbook, init, last, idx');
      }
    }
  }

  /** A private file at the end adds no recipe and no index. */
  lemma ScannedAtSkip(cookbook: string, init: seq<string>, last: string, idx: seq<nat>)
    requires IsPrivateRecipe(last)
    requires ScannedAt(cookbook, init, idx)
    ensures ScannedAt(cookbook, init + [last], idx)
  {
    var files := init + [last];
    assert files[..|init|] == init;
    assert ScannedRecipes(cookbook, files) == ScannedRecipes(cookbook, init);
    forall i | 0 <= i < |idx|
      ensures files[idx[i]] == init[idx[i]]
    {
    }
    forall j | 0 <= j < |files| && !IsPrivateRecipe(files[j])
      ensures j in idx
    {
      assert j < |init| && files[j] == init[j];
    }
  }

  /** A public file at the end adds its recipe, at the next index. */
  lemma ScannedAtKeep(cookbook: string, init: seq<string>, last: string, idx: seq<nat>)
    requires !IsPrivateRecipe(last)
    requires ScannedAt(cookbook, init, idx)
    ensures ScannedAt(cookbook, init + [last], idx + [|init|])
  {
    var files := init + [last];
    var r' := ScannedRecipes(cookbook, init);
    var r := r' + [ScannedRecipe(cookbook, last)];
    var idx2 := idx + [|init|];
    assert files[..|init|] == init;
    assert ScannedRecipes(cookbook, files) == r;
    forall i | 0 <= i < |idx2|
      ensures idx2[i] < |files| && !IsPrivateRecipe(files[idx2[i]]) && r[i] == ScannedRecipe(cookbook, files[idx2[i]])
    {
      if i < |idx| {
        assert idx2[i] == idx[i] && r[i] == r'[i] && files[idx[i]] == init[idx[i]];
      }
    }
    forall j | 0 <= j < |files| && !IsPrivateRecipe(files[j])
      ensures j in idx2
    {
      if j < |init| {
        assert init[j] == files[j];
        assert j in idx;
      } else {
        assert idx2[|idx|] == j;
      }
    }
  }

  /** Scanning puts the recipes in listing order, so a sorted listing gives
      recipes whose paths are sorted. */
  lemma {:induction false} ScannedRecipesSorted(cookbook: string, files: seq<string>)
    requires IsSorted(files)
    ensures forall i, j :: 0 <= i < j < |ScannedRecipes(cookbook, files)| ==>
      LexLe(ScannedRecipes(cookbook, files)[i].path, ScannedRecipes(cookbook, files)[j].path)
    decreases |files|
  {
    if files != [] {
      var init := files[..|files| - 1];
      var last := files[|files| - 1];
      assert IsSorted(init);
      ScannedRecipesSorted(cookbook, init);
      ScannedRecipesSound(cookbook, init);
      var r := ScannedRecipes(cookbook, files);
      var r' := ScannedRecipes(cookbook, init);
      if !IsPrivateRecipe(last) {
        forall i, j | 0 <= i < j < |r|
          ensures LexLe(r[i].path, r[j].path)
        {
          if j == |r| - 1 {
            assert ScannedFrom(cookbook, init, r'[i]);
            var k :| 0 <= k < |init| && !IsPrivateRecipe(init[k]) && r'[i] == ScannedRecipe(cookbook, init[k]);
            assert r[i].path == files[k];
          } else {
            assert r[i] == r'[i] && r[j] == r'[j];
          }
        }
      }
    }
  }

  /** `dir/recipes/default.rb` has base name `default`, so it is listed as
      `cookbook::default` unless the base name starts with `_`. */
  lemma RecipeBaseOfPath(dir: string, base: string)
    requires '/' !in base && base != []
    ensures RecipeBaseName(dir + "/recipes/" + base + ".rb") == base
  {
    var file := base + ".rb";
    assert forall k :: 0 <= k < |file| && file[k] == '/' ==> k >= |base|;
    assert '/' !in file;
    assert dir + "/recipes/" + base + ".rb" == (dir + "/recipes") + "/" + file;
    BaseNameOf(dir + "/recipes", file);
    assert file[|file| - 3..] == ".rb";
    assert file[..|file| - 3] == base;
  }

  // ---------------------------------------------------------------------
  // The whole model

  /** The directory globs may list files in any order: since every listing
      is sorted first, the attributes, resources, definitions and fragments
      are the same for any order. */
  lemma ScansIgnoreListingOrder(metadata: Metadata, files: CookbookFiles,
                                attributeFiles: seq<string>, resourceFiles: seq<string>,
                                definitionFiles: seq<string>, docFiles: seq<string>)
    requires multiset(attributeFiles) == multiset(files.attributeFiles)
    requires multiset(resourceFiles) == multiset(files.resourceFiles)
    requires multiset(definitionFiles) == multiset(files.definitionFiles)
    requires multiset(docFiles) == multiset(files.docFiles)
    ensures AttributeList(metadata.attributes, Sort(attributeFiles), files.attributeDecls)
         == AttributeList(metadata.attributes, Sort(files.attributeFiles), files.attributeDecls)
    ensures ResourceList(metadata.name, Sort(resourceFiles)) == ResourceList(metadata.name, Sort(files.resourceFiles))
    ensures DefinitionList(Sort(definitionFiles)) == DefinitionList(Sort(files.definitionFiles))
    ensures FragmentMap(Sort(docFiles), files.read) == FragmentMap(Sort(files.docFiles), files.read)
  {
    AttributesIgnoreListingOrder(metadata.attributes, attributeFiles, files.attributeFiles, files.attributeDecls);
    ResourcesIgnoreListingOrder(metadata.name, resourceFiles, files.resourceFiles);
    DefinitionsIgnoreListingOrder(definitionFiles, files.definitionFiles);
    FragmentsIgnoreListingOrder(docFiles, files.docFiles, files.read);
  }

  /** The attribute list depends only on which attribute files are listed. */
  lemma AttributesIgnoreListingOrder(attrs: seq<(string, map<string, Value>)>, a: seq<string>, b: seq<string>,
                                     decls: string -> seq<AttributeEntry>)
    requires multiset(a) == multiset(b)
    ensures AttributeList(attrs, Sort(a), decls) == AttributeList(attrs, Sort(b), decls)
  {
    SortIgnoresListingOrder(a, b);
  }

  /** The resources depend only on which resource files are listed. */
  lemma ResourcesIgnoreListingOrder(cookbook: string, a: seq<string>, b: seq<string>)
    requires multiset(a) == multiset(b)
    ensures ResourceList(cookbook, Sort(a)) == ResourceList(cookbook, Sort(b))
  {
    SortIgnoresListingOrder(a, b);
  }

  /** The definitions depend only on which definition files are listed. */
  lemma DefinitionsIgnoreListingOrder(a: seq<string>, b: seq<string>)
    requires multiset(a) == multiset(b)
    ensures DefinitionList(Sort(a)) == DefinitionList(Sort(b))
  {
    SortIgnoresListingOrder(a, b);
  }

  /** The fragments depend only on which doc files are listed. */
  lemma FragmentsIgnoreListingOrder(a: seq<string>, b: seq<string>, read: string -> string)
    requires multiset(a) == multiset(b)
    ensures FragmentMap(Sort(a), read) == FragmentMap(Sort(b), read)
  {
    SortIgnoresListingOrder(a, b);
  }

  /** Likewise the recipe list does not depend on the order the recipe
      directory was listed in. */
  lemma RecipesIgnoreListingOrder(cookbookDir: string, metadata: Metadata, a: seq<string>, b: seq<string>)
    requires multiset(a) == multiset(b)
    ensures RecipeList(cookbookDir, metadata, Sort(a)) == RecipeList(cookbookDir, metadata, Sort(b))
  {
    SortIgnoresListingOrder(a, b);
  }

  /** A cookbook without a given directory (empty listing) gets an empty
      collection for it, not an error. */
  lemma MissingDirectoriesGiveEmptyCollections(cookbookDir: string, metadata: Metadata, files: CookbookFiles)
    requires files.resourceFiles == [] && files.definitionFiles == [] && files.docFiles == []
    ensures ResourceList(metadata.name, Sort(files.resourceFiles)) == []
    ensures DefinitionList(Sort(files.definitionFiles)) == []
    ensures FragmentMap(Sort(files.docFiles), files.read) == map[]
    ensures |metadata.recipes| == 0 && files.recipeFiles == [] ==> RecipeList(cookbookDir, metadata, Sort(files.recipeFiles)) == []
  {
  }
}
