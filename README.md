# knife-cookbook-doc: the README model, in Dafny

`knife cookbook doc` writes a README for a Chef cookbook. Before a template
renders it, the class `KnifeCookbookDoc::ReadmeModel` collects from the
cookbook directory:

- the cookbook's attributes: those declared in `metadata.rb`, then those of
  each file in `attributes/`;
- one resource per file in `resources/` and one definition per file in
  `definitions/`;
- the documentation fragments in `doc/*.md`, keyed by base name;
- the recipes: the ones the metadata declares or, if it declares none, the
  non-private files of `recipes/`.

It also formats the platform, dependency, recommendation, suggestion and
conflict lists, showing a version only when constraints are switched on and
the version is not `>= 0.0.0`.

The project has four modules:

- `RubyText` (`text.dfy`) holds the Ruby string operations the model uses:
  `gsub` of one character, the text after the last occurrence of a
  character, the two forms of `File.basename` the model calls, and ASCII
  `capitalize`.
- `PathOrder` (`path_order.dfy`) holds the order `Array#sort` puts strings
  in, and an insertion sort. The sort is proved to return a sorted
  permutation of its input, and that permutation is proved unique.
- `KnifeCookbookDoc` (`readme_model.dfy`) holds the data model, one
  specification function per collection, and the class `ReadmeModel`. Its
  constructor fills the collections in loops, as the Ruby constructor does.
  The formatting accessors are functions.
- `ReadmeProperties` (`readme_properties.dfy`) holds the lemmas about those
  functions.

Every I/O collaborator becomes an input:

- `Metadata` is what the metadata parser returns.
- `CookbookFiles` holds the paths each directory glob lists, in any order.
  It also holds the per-file attribute parser and `IO.read`, as total
  functions.
- The resource, definition and recipe model classes are records of the
  arguments their constructors receive.

## Model

| member | source | states |
|---|---|---|
| `KnifeCookbookDoc.FormatConstraint` | lib/knife_cookbook_doc/readme_model.rb:128-134 | the name is returned unchanged exactly when constraints are off or the version is `>= 0.0.0`; otherwise the result is `name (version)` |
| `KnifeCookbookDoc.FormatConstraints` | lib/knife_cookbook_doc/readme_model.rb:78-82 | a formatted group has one entry per `(name, version)` pair, in order, each formatted by `FormatConstraint` |
| `KnifeCookbookDoc.ReadmeModel.Platforms` | lib/knife_cookbook_doc/readme_model.rb:72-76 | same length and order as the metadata's platforms; each entry is the capitalised platform name, formatted with its version |
| `KnifeCookbookDoc.ReadmeModel.Dependencies` | lib/knife_cookbook_doc/readme_model.rb:78-82 | same length and order as the dependencies; each entry is formatted |
| `KnifeCookbookDoc.ReadmeModel.Recommendations` | lib/knife_cookbook_doc/readme_model.rb:84-88 | same length and order as the recommendations; each entry is formatted |
| `KnifeCookbookDoc.ReadmeModel.Suggestions` | lib/knife_cookbook_doc/readme_model.rb:90-94 | same length and order as the suggestions; each entry is formatted |
| `KnifeCookbookDoc.ReadmeModel.Conflicting` | lib/knife_cookbook_doc/readme_model.rb:96-100 | same length and order as the conflicts; each entry is formatted |
| `KnifeCookbookDoc.MetadataAttributes` | lib/knife_cookbook_doc/readme_model.rb:11-15 | one entry per metadata attribute, in metadata order: its display path, then the options' description, default and choice (nil when missing) |
| `KnifeCookbookDoc.FileAttributes` | lib/knife_cookbook_doc/readme_model.rb:17-22 | the attribute files' entries; their number is the sum of the per-file counts |
| `KnifeCookbookDoc.ResourceList` | lib/knife_cookbook_doc/readme_model.rb:24-27 | one resource per file, in listing order, each owned by the cookbook |
| `KnifeCookbookDoc.DefinitionList` | lib/knife_cookbook_doc/readme_model.rb:29-32 | one definition per file, in listing order, each named after its file without extension |
| `KnifeCookbookDoc.DeclaredRecipes` | lib/knife_cookbook_doc/readme_model.rb:40-43 | one recipe per declaration, in order, keeping name and description; its path is `dir/recipes/<text after the last colon>.rb` |
| `KnifeCookbookDoc.ScannedRecipes` | lib/knife_cookbook_doc/readme_model.rb:44-50 | never more recipes than files; the exact list is stated by `ReadmeProperties.ScannedRecipesExact` |
| `KnifeCookbookDoc.ReadmeModel.constructor` | lib/knife_cookbook_doc/readme_model.rb:5-54 | keeps the metadata and the constraints flag, and fills all five collections from the sorted listings, in the Ruby order |
| `KnifeCookbookDoc.ReadmeModel.CollectCode` | lib/knife_cookbook_doc/readme_model.rb:10-32 | the attributes, resources and definitions become their specification functions of the sorted listings, and only those three fields may change |
| `KnifeCookbookDoc.ReadmeModel.CollectDocumentation` | lib/knife_cookbook_doc/readme_model.rb:34-51 | the fragments and recipes become their specification functions of the sorted listings, and only those two fields may change |
| `KnifeCookbookDoc.ReadmeModel.CollectAttributes` | lib/knife_cookbook_doc/readme_model.rb:10-22 | the attributes become the metadata entries followed by the entries of each sorted attribute file |
| `KnifeCookbookDoc.ReadmeModel.CollectResources` | lib/knife_cookbook_doc/readme_model.rb:24-27 | the resources become one entry per sorted resource file |
| `KnifeCookbookDoc.ReadmeModel.CollectDefinitions` | lib/knife_cookbook_doc/readme_model.rb:29-32 | the definitions become one entry per sorted definition file |
| `KnifeCookbookDoc.ReadmeModel.LoadFragments` | lib/knife_cookbook_doc/readme_model.rb:34-37 | the fragments become the sorted doc files' text by key, later files overwriting earlier ones |
| `KnifeCookbookDoc.ReadmeModel.ResolveRecipes` | lib/knife_cookbook_doc/readme_model.rb:39-51 | the recipes become the declared ones when any are declared, otherwise the scanned ones; the listing is used only in the second case |
| `ReadmeProperties.FormatConstraintExamples` | lib/knife_cookbook_doc/readme_model.rb:128-134 | `foo` with `>= 0.0.0` shows as `foo`; `~> 1.2` shows as `foo (~> 1.2)` when on and `foo` when off |
| `ReadmeProperties.FormatConstraintsHidden` | lib/knife_cookbook_doc/readme_model.rb:129 | with constraints off, a formatted group is exactly the names |
| `ReadmeProperties.CapitalizeShape` | lib/knife_cookbook_doc/readme_model.rb:74 | a capitalised platform name has the same length, is in capitalised form, and equals the declared name up to ASCII case |
| `ReadmeProperties.CapitalizeIdempotent` | lib/knife_cookbook_doc/readme_model.rb:74 | capitalising a second time changes nothing |
| `ReadmeProperties.ReplaceAllAbsent` | lib/knife_cookbook_doc/readme_model.rb:13 | `gsub` leaves a string without the character unchanged |
| `ReadmeProperties.ReplaceAllAppend` | lib/knife_cookbook_doc/readme_model.rb:13 | `gsub` of a concatenation is the concatenation of the `gsub`s |
| `ReadmeProperties.BracketedSegments` | lib/knife_cookbook_doc/readme_model.rb:13 | `['` + the key with every `/` replaced by `']['` + `']` is one `['segment']` per slash-separated segment |
| `ReadmeProperties.AttributePathSegments` | lib/knife_cookbook_doc/readme_model.rb:13 | an attribute key is displayed as `node` then one `['segment']` per slash-separated segment, in order |
| `ReadmeProperties.AttributePathPlain` | lib/knife_cookbook_doc/readme_model.rb:13 | a key without `/` is displayed as `node['key']` |
| `ReadmeProperties.AttributePathTwoLevels` | lib/knife_cookbook_doc/readme_model.rb:13 | a key `a/b` is displayed as `node['a']['b']` |
| `ReadmeProperties.FileAttributesAppend` | lib/knife_cookbook_doc/readme_model.rb:17-22 | the entries of a concatenated listing are the entries of its first part followed by those of its second part |
| `ReadmeProperties.FileAttributesBlock` | lib/knife_cookbook_doc/readme_model.rb:17-22 | each attribute file contributes exactly its own entries, as one block, at its place in the listing |
| `ReadmeProperties.AttributeListLayout` | lib/knife_cookbook_doc/readme_model.rb:10-22 | the list has length metadata count plus file count, the metadata entries come first in metadata order, and the file entries follow; nothing is deduplicated |
| `ReadmeProperties.AttributeListExample` | lib/knife_cookbook_doc/readme_model.rb:10-22 | metadata `db/user` and one file declaring `node['app']['port']` give exactly those two entries, metadata first |
| `ReadmeProperties.ResourcesFollowListing` | lib/knife_cookbook_doc/readme_model.rb:24-27 | from any listing: one resource per listed file, paths in sorted order, exactly the listed paths, each owned by the cookbook |
| `ReadmeProperties.DefinitionsFollowListing` | lib/knife_cookbook_doc/readme_model.rb:29-32 | from any listing: one definition per listed file, paths in sorted order, exactly the listed paths, each named after its own file |
| `ReadmeProperties.BaseNameOf` | lib/knife_cookbook_doc/readme_model.rb:31 | the base name of `dir/base` is `base` when `base` holds no `/` |
| `ReadmeProperties.DefinitionNameOfPath` | lib/knife_cookbook_doc/readme_model.rb:31 | `dir/definitions/name.rb` defines `name` |
| `ReadmeProperties.FragmentKeys` | lib/knife_cookbook_doc/readme_model.rb:34-37 | the fragment keys are exactly the keys of the listed files |
| `ReadmeProperties.FragmentLastWins` | lib/knife_cookbook_doc/readme_model.rb:34-37 | a key's text is that of a file with that key after which no listed file has the key |
| `ReadmeProperties.FragmentKeyOfPath` | lib/knife_cookbook_doc/readme_model.rb:36 | `dir/doc/name.md` is stored under `name` |
| `ReadmeProperties.FragmentMapPair` | lib/knife_cookbook_doc/readme_model.rb:35-37 | for two doc files, the second file's entry is written over the first's |
| `ReadmeProperties.FragmentExample` | lib/knife_cookbook_doc/readme_model.rb:34-37 | `intro.md` and `usage.md` give exactly the keys `intro` and `usage`, each with its own file's text |
| `ReadmeProperties.DeclaredRecipesIgnoreListing` | lib/knife_cookbook_doc/readme_model.rb:40-43 | with declared recipes, the recipe listing makes no difference; the list has the declarations' length, order, names and descriptions |
| `ReadmeProperties.RecipesScannedWhenUndeclared` | lib/knife_cookbook_doc/readme_model.rb:44-50 | without declared recipes, the list is the scan of the listing |
| `ReadmeProperties.RecipePathOfQualifiedName` | lib/knife_cookbook_doc/readme_model.rb:42 | a declared `cookbook::recipe` lives in `dir/recipes/recipe.rb` |
| `ReadmeProperties.RecipePathOfPlainName` | lib/knife_cookbook_doc/readme_model.rb:42 | a declared name without a colon is used whole: `dir/recipes/name.rb` |
| `ReadmeProperties.ScannedRecipesSound` | lib/knife_cookbook_doc/readme_model.rb:45-49 | every scanned recipe comes from a listed file whose base name does not start with `_`; it is named `cookbook::base` and has no description |
| `ReadmeProperties.ScannedRecipesComplete` | lib/knife_cookbook_doc/readme_model.rb:45-49 | every listed file whose base name does not start with `_` gives a scanned recipe |
| `ReadmeProperties.ScannedRecipesSorted` | lib/knife_cookbook_doc/readme_model.rb:45-49 | from a sorted listing the recipes' paths come out sorted |
| `ReadmeProperties.ScannedRecipesExact` | lib/knife_cookbook_doc/readme_model.rb:44-50 | there is an increasing sequence of listing positions, holding every non-private file's position and only those, such that recipe i is the recipe of the file at position i: exactly one recipe per non-private file, in listing order |
| `ReadmeProperties.ScannedAtSkip` | lib/knife_cookbook_doc/readme_model.rb:47 | a private file added at the end of the listing adds no recipe |
| `ReadmeProperties.ScannedAtKeep` | lib/knife_cookbook_doc/readme_model.rb:47-48 | a non-private file added at the end of the listing adds its own recipe, at the end |
| `ReadmeProperties.RecipeBaseOfPath` | lib/knife_cookbook_doc/readme_model.rb:46 | the base name of `dir/recipes/name.rb` is `name` |
| `ReadmeProperties.ScansIgnoreListingOrder` | lib/knife_cookbook_doc/readme_model.rb:17 | the attributes, resources, definitions and fragments are the same for every order in which the globs list the files |
| `ReadmeProperties.AttributesIgnoreListingOrder` | lib/knife_cookbook_doc/readme_model.rb:17 | the attribute list depends only on which attribute files are listed |
| `ReadmeProperties.ResourcesIgnoreListingOrder` | lib/knife_cookbook_doc/readme_model.rb:25 | the resources depend only on which resource files are listed |
| `ReadmeProperties.DefinitionsIgnoreListingOrder` | lib/knife_cookbook_doc/readme_model.rb:30 | the definitions depend only on which definition files are listed |
| `ReadmeProperties.FragmentsIgnoreListingOrder` | lib/knife_cookbook_doc/readme_model.rb:35 | the fragments depend only on which doc files are listed |
| `ReadmeProperties.RecipesIgnoreListingOrder` | lib/knife_cookbook_doc/readme_model.rb:45 | the recipe list is the same for every order of the recipe listing |
| `ReadmeProperties.MissingDirectoriesGiveEmptyCollections` | lib/knife_cookbook_doc/readme_model.rb:24-50 | an empty listing (a missing directory) gives an empty collection, not an error |
| `RubyText.AfterLastSpec` | lib/knife_cookbook_doc/readme_model.rb:42 | the text after the last `:` is the longest suffix without a `:`: either the whole name or preceded by a `:` |
| `RubyText.AfterLastAbsent` | lib/knife_cookbook_doc/readme_model.rb:42 | a name without `:` is kept whole |
| `RubyText.AfterLastSplit` | lib/knife_cookbook_doc/readme_model.rb:42 | in `p:b` with no `:` in `b`, exactly `b` is kept |
| `RubyText.Split` | lib/knife_cookbook_doc/readme_model.rb:13 | the segments of a key: at least one, none containing the separator |
| `RubyText.JoinSplit` | lib/knife_cookbook_doc/readme_model.rb:13 | joining the segments with the separator gives back the key |
| `RubyText.StripSuffix` | lib/knife_cookbook_doc/readme_model.rb:36 | `File.basename(f, '.md')` removes the suffix only when it matches and something is left |
| `RubyText.LeadingDots` | lib/knife_cookbook_doc/readme_model.rb:31 | counts the dots a name starts with |
| `RubyText.StripExtension` | lib/knife_cookbook_doc/readme_model.rb:31 | `File.basename(f, '.*')` is the name itself or its prefix before a last dot, after which no dot follows |
| `RubyText.StripExtensionOf` | lib/knife_cookbook_doc/readme_model.rb:31 | `base.ext` with no dot in `ext`, and `base` not starting with a dot, loses exactly `.ext` |
| `PathOrder.LexLeReflexive` | lib/knife_cookbook_doc/readme_model.rb:17 | the string order is reflexive |
| `PathOrder.LexLeTotal` | lib/knife_cookbook_doc/readme_model.rb:17 | any two strings are comparable |
| `PathOrder.LexLeTransitive` | lib/knife_cookbook_doc/readme_model.rb:17 | the string order is transitive |
| `PathOrder.LexLeAntisymmetric` | lib/knife_cookbook_doc/readme_model.rb:17 | two strings each at most the other are equal |
| `PathOrder.InsertPermutation` | lib/knife_cookbook_doc/readme_model.rb:17 | inserting adds exactly the one element |
| `PathOrder.InsertSorted` | lib/knife_cookbook_doc/readme_model.rb:17 | inserting into a sorted sequence keeps it sorted |
| `PathOrder.SortPermutation` | lib/knife_cookbook_doc/readme_model.rb:17 | `.sort` returns a rearrangement of the listing |
| `PathOrder.SortSorted` | lib/knife_cookbook_doc/readme_model.rb:17 | `.sort` returns the listing in order |
| `PathOrder.SortedUnique` | lib/knife_cookbook_doc/readme_model.rb:17 | two sorted arrangements of the same strings are equal |
| `PathOrder.SortIgnoresListingOrder` | lib/knife_cookbook_doc/readme_model.rb:17 | the sorted listing depends only on which paths are listed |

## Left out

- Loading `metadata.rb` through Chef's metadata parser (lines 7-8) is not
  modelled. It is an external library, so the model takes the parser's
  results as a `Metadata` value. Its failures are therefore outside the
  model too.
- The `Dir[...]` globs and `IO.read` are file system I/O. A glob becomes a
  listing of paths in arbitrary order, which the model sorts. `IO.read`
  becomes a total function from path to text. Glob pattern matching itself,
  and read errors, are not modelled.
- `AttributesModel`, `ResourceModel`, `DefinitionsModel` and `RecipeModel`
  are not part of this model. The attribute parser is an input function.
  The other three are records of their constructor arguments. A scanned
  recipe (line 48) passes the file as the second argument, so the model reads
  that call as having no description and records `Recipe(name, None, path)`.
- `get_binding` (lines 122-124) is Ruby reflection for the template engine.
  It has no behaviour to model.
- `description`, `maintainer`, `maintainer_email` and `license` are
  pass-through projections of the metadata, so they are not modelled.
- `fragments`, `resources`, `definitions`, `attributes` and `recipes` are
  plain readers. The model reads the class fields directly instead.
- The regular expression at line 42 is modelled only as "the text after the
  last `:`, or the whole name". It differs from Ruby only for a name that
  contains a line break.
- `Capitalize` maps ASCII letters only. Ruby's `String#capitalize` also maps
  non-ASCII letters.
- `BaseName` takes the text after the last `/`. It assumes no trailing
  separator, which glob results never have.
- `LexLe` compares characters, that is, code points. Ruby compares the
  UTF-8 bytes. The two orders agree for valid UTF-8 strings.
- Ruby hashes have unique keys; the association lists in `Metadata` are not
  required to. No property depends on this.
- `Value` covers nil, booleans, integers, strings, symbols, arrays and
  hashes. An attribute option holding a float or another object is not
  represented. These values only pass through, so no behaviour depends on it.
- The Ruby constructor is a single method. The model splits it into five
  methods, one per collection, called in the same order. `CollectCode` groups
  the first three and `CollectDocumentation` the last two. Each method's loop
  appends to its field as the Ruby loop does.
- Ruby sets `@constraints` last (line 53). The model sets it first, as a
  `const` field, because nothing reads it during construction.
