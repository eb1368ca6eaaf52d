/**
 * The documentation model of a Chef cookbook: what `knife cookbook doc`
 * collects from a cookbook directory before a template renders it.
 *
 * The metadata parser, the directory globs, file reads and the per-file
 * parsers are outside the model; their results come in as a `Metadata`
 * value and a `CookbookFiles` value. The constructor of `ReadmeModel` then
 * does what the Ruby constructor does, loop by loop, and each collection it
 * fills is specified by one of the functions below.
 */
module KnifeCookbookDoc {
  import opened RubyText
  import opened PathOrder

  /** The version range that constrains nothing; it is never displayed. */
  const DefaultConstraint: string := ">= 0.0.0"

  datatype Option<T> = None | Some(value: T)

  /** A Ruby value held in a metadata attribute's options hash; `Nil` is
      what a key the hash lacks reads as. A hash value is an association
      list in its iteration order. */
  datatype Value =
    | Nil
    | Bool(truth: bool)
    | Int(number: int)
    | Str(text: string)
    | Symbol(name: string)
    | List(items: seq<Value>)
    | Hash(pairs: seq<(Value, Value)>)

  /** One documented attribute: its `node[...]` path, then description,
      default and choice, in that order. */
  datatype AttributeEntry = AttributeEntry(name: string, description: Value, default: Value, choice: Value)

  /** What the metadata parser reports. Every Ruby hash is an association
      list in the hash's own iteration order. */
  datatype Metadata = Metadata(
    name: string,
    attributes: seq<(string, map<string, Value>)>,
    recipes: seq<(string, string)>,
    platforms: seq<(string, string)>,
    dependencies: seq<(string, string)>,
    recommendations: seq<(string, string)>,
    suggestions: seq<(string, string)>,
    conflicting: seq<(string, string)>)

  /** What the file system and the per-file parsers provide: the paths each
      directory glob returns, in whatever order it returns them, the
      attribute declarations the attribute-file parser finds in a file, and
      the full text of a file. */
  datatype CookbookFiles = CookbookFiles(
    attributeFiles: seq<string>,
    resourceFiles: seq<string>,
    definitionFiles: seq<string>,
    docFiles: seq<string>,
    recipeFiles: seq<string>,
    attributeDecls: string -> seq<AttributeEntry>,
    read: string -> string)

  /** A resource model, built from the cookbook name and the file. */
  datatype Resource = Resource(cookbook: string, path: string)

  /** A definition model, built from the definition's name and the file. */
  datatype Definition = Definition(name: string, path: string)

  /** A recipe model: its qualified name, the description the metadata gives
      (none for a recipe found by scanning), and the file. */
  datatype Recipe = Recipe(name: string, description: Option<string>, path: string)

  // ---------------------------------------------------------------------
  // Constraint formatting

  /** A dependency, platform or similar entry as displayed: the version is
      appended in parentheses exactly when constraints are shown and the
      version is not the default range. */
  function FormatConstraint(constraints: bool, name: string, version: string): (r: string)
    ensures r == name <==> !constraints || version == DefaultConstraint
    ensures r != name ==> r == name + " (" + version + ")"
  {
    if constraints && version != DefaultConstraint then name + " (" + version + ")" else name
  }

  /** A whole group of `(name, version)` pairs formatted one by one, in order. */
  function FormatConstraints(constraints: bool, pairs: seq<(string, string)>): (r: seq<string>)
    ensures |r| == |pairs|
    ensures forall i :: 0 <= i < |r| ==> r[i] == FormatConstraint(constraints, pairs[i].0, pairs[i].1)
    decreases |pairs|
  {
    if pairs == [] then []
    else [FormatConstraint(constraints, pairs[0].0, pairs[0].1)] + FormatConstraints(constraints, pairs[1..])
  }

  /** The pairs with each name capitalised, as done for platforms. */
  function CapitalizeNames(pairs: seq<(string, string)>): seq<(string, string)>
  {
    seq(|pairs|, i requires 0 <= i < |pairs| => (Capitalize(pairs[i].0), pairs[i].1))
  }

  // ---------------------------------------------------------------------
  // Attributes

  /** The display path of a slash-delimited attribute key. */
  function AttributePath(key: string): string
  {
    "node['" + ReplaceAll(key, '/', "']['") + "']"
  }

  /** One `['segment']` index per segment, in order. */
  function Brackets(segments: seq<string>): string
    decreases |segments|
  {
    if segments == [] then "" else "['" + segments[0] + "']" + Brackets(segments[1..])
  }

  /** `options[key]` on a Ruby hash: `nil` when the key is missing. */
  function Lookup(options: map<string, Value>, key: string): Value
  {
    if key in options then options[key] else Nil
  }

  /** The entry for one attribute the metadata declares. */
  function MetadataAttribute(key: string, options: map<string, Value>): AttributeEntry
  {
    AttributeEntry(AttributePath(key), Lookup(options, "description"), Lookup(options, "default"), Lookup(options, "choice"))
  }

  /** The metadata-declared attributes, one entry each, in metadata order. */
  function MetadataAttributes(attrs: seq<(string, map<string, Value>)>): (r: seq<AttributeEntry>)
    ensures |r| == |attrs|
    ensures forall i :: 0 <= i < |r| ==> r[i] == MetadataAttribute(attrs[i].0, attrs[i].1)
    decreases |attrs|
  {
    if attrs == [] then [] else [MetadataAttribute(attrs[0].0, attrs[0].1)] + MetadataAttributes(attrs[1..])
  }

  /** How many entries the attribute files declare between them. */
  function AttributeCount(files: seq<string>, decls: string -> seq<AttributeEntry>): nat
    decreases |files|
  {
    if files == [] then 0 else AttributeCount(files[..|files| - 1], decls) + |decls(files[|files| - 1])|
  }

  /** The entries of the attribute files, file after file. */
  function FileAttributes(files: seq<string>, decls: string -> seq<AttributeEntry>): (r: seq<AttributeEntry>)
    ensures |r| == AttributeCount(files, decls)
    decreases |files|
  {
    if files == [] then [] else FileAttributes(files[..|files| - 1], decls) + decls(files[|files| - 1])
  }

  /** All documented attributes: metadata-declared ones first, then those of
      the attribute files, with nothing merged or removed. */
  function AttributeList(attrs: seq<(string, map<string, Value>)>, files: seq<string>,
                         decls: string -> seq<AttributeEntry>): seq<AttributeEntry>
  {
    MetadataAttributes(attrs) + FileAttributes(files, decls)
  }

  // ---------------------------------------------------------------------
  // Resources, definitions and fragments

  /** One resource per file, in the order given. */
  function ResourceList(cookbook: string, files: seq<string>): (r: seq<Resource>)
    ensures |r| == |files|
    ensures forall i :: 0 <= i < |r| ==> r[i] == Resource(cookbook, files[i])
    decreases |files|
  {
    if files == [] then [] else ResourceList(cookbook, files[..|files| - 1]) + [Resource(cookbook, files[|files| - 1])]
  }

  /** `File.basename(path, '.*')`: a definition is named after its file. */
  function DefinitionName(path: string): string
  {
    StripExtension(BaseName(path))
  }

  /** One definition per file, in the order given. */
  function DefinitionList(files: seq<string>): (r: seq<Definition>)
    ensures |r| == |files|
    ensures forall i :: 0 <= i < |r| ==> r[i] == Definition(DefinitionName(files[i]), files[i])
    decreases |files|
  {
    if files == [] then [] else DefinitionList(files[..|files| - 1]) + [Definition(DefinitionName(files[|files| - 1]), files[|files| - 1])]
  }

  /** `File.basename(path, '.md')`: the key a fragment file is stored under. */
  function FragmentKey(path: string): string
  {
    StripSuffix(BaseName(path), ".md")
  }

  /** The fragment files' text by key, each file written over what an
      earlier file with the same key left. */
  function FragmentMap(files: seq<string>, read: string -> string): map<string, string>
    decreases |files|
  {
    if files == [] then map[]
    else FragmentMap(files[..|files| - 1], read)[FragmentKey(files[|files| - 1]) := read(files[|files| - 1])]
  }

  // ---------------------------------------------------------------------
  // Recipes

  /** The file of a metadata-declared recipe: the name's text after its last
      colon, or the whole name when it has none. */
  function RecipePath(cookbookDir: string, name: string): string
  {
    cookbookDir + "/recipes/" + AfterLast(name, ':') + ".rb"
  }

  /** One recipe per metadata declaration, in declaration order. */
  function DeclaredRecipes(cookbookDir: string, declared: seq<(string, string)>): (r: seq<Recipe>)
    ensures |r| == |declared|
    ensures forall i :: 0 <= i < |r| ==>
      r[i] == Recipe(declared[i].0, Some(declared[i].1), RecipePath(cookbookDir, declared[i].0))
    decreases |declared|
  {
    if declared == [] then []
    else
      var last := declared[|declared| - 1];
      DeclaredRecipes(cookbookDir, declared[..|declared| - 1]) + [Recipe(last.0, Some(last.1), RecipePath(cookbookDir, last.0))]
  }

  /** `File.basename(path, '.rb')`: the base name of a recipe file. */
  function RecipeBaseName(path: string): string
  {
    StripSuffix(BaseName(path), ".rb")
  }

  /** A recipe file whose base name starts with `_` is private. */
  predicate IsPrivateRecipe(path: string)
  {
    StartsWith(RecipeBaseName(path), "_")
  }

  /** The recipe a scanned, non-private file gives. */
  function ScannedRecipe(cookbook: string, path: string): Recipe
  {
    Recipe(cookbook + "::" + RecipeBaseName(path), None, path)
  }

  /** The recipes found by scanning: private files are skipped, the others
      kept in the order given. */
  function ScannedRecipes(cookbook: string, files: seq<string>): (r: seq<Recipe>)
    ensures |r| <= |files|
    decreases |files|
  {
    if files == [] then []
    else
      var init := ScannedRecipes(cookbook, files[..|files| - 1]);
      var last := files[|files| - 1];
      if IsPrivateRecipe(last) then init else init + [ScannedRecipe(cookbook, last)]
  }

  /** The recipe list: the metadata's declarations when there are any,
      otherwise the scanned recipe files. */
  function RecipeList(cookbookDir: string, metadata: Metadata, files: seq<string>): seq<Recipe>
  {
    if |metadata.recipes| != 0 then DeclaredRecipes(cookbookDir, metadata.recipes)
    else ScannedRecipes(metadata.name, files)
  }

  // ---------------------------------------------------------------------
  // The model object

  class ReadmeModel {
    const metadata: Metadata
    const constraints: bool
    var attributes: seq<AttributeEntry>
    var resources: seq<Resource>
    var definitions: seq<Definition>
    var fragments: map<string, string>
    var recipes: seq<Recipe>

    /** Collects everything from the cookbook in `cookbookDir`, in the
        order the Ruby constructor does; every directory listing is sorted
        before it is used, and the recipe directory is listed only when the
        metadata declares no recipe. */
    constructor (cookbookDir: string, metadata: Metadata, files: CookbookFiles, constraints: bool)
      ensures this.metadata == metadata && this.constraints == constraints
      ensures attributes == AttributeList(metadata.attributes, Sort(files.attributeFiles), files.attributeDecls)
      ensures resources == ResourceList(metadata.name, Sort(files.resourceFiles))
      ensures definitions == DefinitionList(Sort(files.definitionFiles))
      ensures fragments == FragmentMap(Sort(files.docFiles), files.read)
      ensures recipes == RecipeList(cookbookDir, metadata, Sort(files.recipeFiles))
    {
      this.metadata := metadata;
      this.constraints := constraints;
      new;
      CollectCode(files);
      CollectDocumentation(cookbookDir, files);
    }

    /** The collections taken from the cookbook's code: attributes,
        resources and definitions, in that order. */
    method CollectCode(files: CookbookFiles)
      modifies this`attributes, this`resources, this`definitions
      ensures attributes == AttributeList(metadata.attributes, Sort(files.attributeFiles), files.attributeDecls)
      ensures resources == ResourceList(metadata.name, Sort(files.resourceFiles))
      ensures definitions == DefinitionList(Sort(files.definitionFiles))
    {
      CollectAttributes(files.attributeFiles, files.attributeDecls);
      CollectResources(files.resourceFiles);
      CollectDefinitions(files.definitionFiles);
    }

    /** The collections taken from its documentation and recipes: the doc
        fragments, then the recipe list. */
    method CollectDocumentation(cookbookDir: string, files: CookbookFiles)
      modifies this`fragments, this`recipes
      ensures fragments == FragmentMap(Sort(files.docFiles), files.read)
      ensures recipes == RecipeList(cookbookDir, metadata, Sort(files.recipeFiles))
    {
      LoadFragments(files.docFiles, files.read);
      ResolveRecipes(cookbookDir, files.recipeFiles);
    }

    /** The metadata's attributes, then those of each attribute file in
        sorted order. */
    method CollectAttributes(listing: seq<string>, decls: string -> seq<AttributeEntry>)
      modifies this`attributes
      ensures attributes == AttributeList(metadata.attributes, Sort(listing), decls)
    {
      attributes := [];
      if |metadata.attributes| != 0 {
        attributes := MetadataAttributes(metadata.attributes);
      }
      var attributeFiles := Sort(listing);
      var i := 0;
      while i < |attributeFiles|
        invariant 0 <= i <= |attributeFiles|
        invariant attributes == AttributeList(metadata.attributes, attributeFiles[..i], decls)
      {
        var declared := decls(attributeFiles[i]);
        if |declared| != 0 {
          attributes := attributes + declared;
        }
        assert attributeFiles[..i + 1][..i] == attributeFiles[..i];
        i := i + 1;
      }
      assert attributeFiles[..i] == attributeFiles;
    }

    /** One resource per resource file, in sorted order. */
    method CollectResources(listing: seq<string>)
      modifies this`resources
      ensures resources == ResourceList(metadata.name, Sort(listing))
    {
      resources := [];
      var resourceFiles := Sort(listing);
      var i := 0;
      while i < |resourceFiles|
        invariant 0 <= i <= |resourceFiles|
        invariant resources == ResourceList(metadata.name, resourceFiles[..i])
      {
        resources := resources + [Resource(metadata.name, resourceFiles[i])];
        assert resourceFiles[..i + 1][..i] == resourceFiles[..i];
        i := i + 1;
      }
      assert resourceFiles[..i] == resourceFiles;
    }

    /** One definition per definition file, in sorted order. */
    method CollectDefinitions(listing: seq<string>)
      modifies this`definitions
      ensures definitions == DefinitionList(Sort(listing))
    {
      definitions := [];
      var definitionFiles := Sort(listing);
      var i := 0;
      while i < |definitionFiles|
        invariant 0 <= i <= |definitionFiles|
        invariant definitions == DefinitionList(definitionFiles[..i])
      {
        definitions := definitions + [Definition(DefinitionName(definitionFiles[i]), definitionFiles[i])];
        assert definitionFiles[..i + 1][..i] == definitionFiles[..i];
        i := i + 1;
      }
      assert definitionFiles[..i] == definitionFiles;
    }

    /** Each fragment file's text under its key, in sorted order. */
    method LoadFragments(listing: seq<string>, read: string -> string)
      modifies this`fragments
      ensures fragments == FragmentMap(Sort(listing), read)
    {
      fragments := map[];
      var docFiles := Sort(listing);
      var i := 0;
      while i < |docFiles|
        invariant 0 <= i <= |docFiles|
        invariant fragments == FragmentMap(docFiles[..i], read)
      {
        fragments := fragments[FragmentKey(docFiles[i]) := read(docFiles[i])];
        assert docFiles[..i + 1][..i] == docFiles[..i];
        i := i + 1;
      }
      assert docFiles[..i] == docFiles;
    }

    /** The declared recipes, or, when there are none, the non-private
        recipe files in sorted order. */
    method ResolveRecipes(cookbookDir: string, listing: seq<string>)
      modifies this`recipes
      ensures recipes == RecipeList(cookbookDir, metadata, Sort(listing))
    {
      recipes := [];
      if |metadata.recipes| != 0 {
        var i := 0;
        while i < |metadata.recipes|
          invariant 0 <= i <= |metadata.recipes|
          invariant recipes == DeclaredRecipes(cookbookDir, metadata.recipes[..i])
        {
          var (name, description) := metadata.recipes[i];
          assert metadata.recipes[..i + 1][..i] == metadata.recipes[..i];
          assert DeclaredRecipes(cookbookDir, metadata.recipes[..i + 1])
              == recipes + [Recipe(name, Some(description), RecipePath(cookbookDir, name))];
          recipes := recipes + [Recipe(name, Some(description), RecipePath(cookbookDir, name))];
          i := i + 1;
        }
        assert metadata.recipes[..i] == metadata.recipes;
      } else {
        var recipeFiles := Sort(listing);
        var i := 0;
        while i < |recipeFiles|
          invariant 0 <= i <= |recipeFiles|
          invariant recipes == ScannedRecipes(metadata.name, recipeFiles[..i])
        {
          var baseName := RecipeBaseName(recipeFiles[i]);
          assert recipeFiles[..i + 1][..i] == recipeFiles[..i];
          assert ScannedRecipes(metadata.name, recipeFiles[..i + 1])
              == if IsPrivateRecipe(recipeFiles[i]) then recipes
                 else recipes + [ScannedRecipe(metadata.name, recipeFiles[i])];
          if !StartsWith(baseName, "_") {
            recipes := recipes + [Recipe(metadata.name + "::" + baseName, None, recipeFiles[i])];
          }
          i := i + 1;
        }
        assert recipeFiles[..i] == recipeFiles;
      }
    }

    /** The supported platforms, each name capitalised, then formatted. */
    function Platforms(): (r: seq<string>)
      ensures |r| == |metadata.platforms|
      ensures forall i :: 0 <= i < |r| ==>
        r[i] == FormatConstraint(constraints, Capitalize(metadata.platforms[i].0), metadata.platforms[i].1)
    {
      FormatConstraints(constraints, CapitalizeNames(metadata.platforms))
    }

    /** The cookbooks this one depends on, formatted. */
    function Dependencies(): (r: seq<string>)
      ensures |r| == |metadata.dependencies|
      ensures forall i :: 0 <= i < |r| ==>
        r[i] == FormatConstraint(constraints, metadata.dependencies[i].0, metadata.dependencies[i].1)
    {
      FormatConstraints(constraints, metadata.dependencies)
    }

    /** The recommended cookbooks, formatted. */
    function Recommendations(): (r: seq<string>)
      ensures |r| == |metadata.recommendations|
      ensures forall i :: 0 <= i < |r| ==>
        r[i] == FormatConstraint(constraints, metadata.recommendations[i].0, metadata.recommendations[i].1)
    {
      FormatConstraints(constraints, metadata.recommendations)
    }

    /** The suggested cookbooks, formatted. */
    function Suggestions(): (r: seq<string>)
      ensures |r| == |metadata.suggestions|
      ensures forall i :: 0 <= i < |r| ==>
        r[i] == FormatConstraint(constraints, metadata.suggestions[i].0, metadata.suggestions[i].1)
    {
      FormatConstraints(constraints, metadata.suggestions)
    }

    /** The conflicting cookbooks, formatted. */
    function Conflicting(): (r: seq<string>)
      ensures |r| == |metadata.conflicting|
      ensures forall i :: 0 <= i < |r| ==>
        r[i] == FormatConstraint(constraints, metadata.conflicting[i].0, metadata.conflicting[i].1)
    {
      FormatConstraints(constraints, metadata.conflicting)
    }
  }
}
