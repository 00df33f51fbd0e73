/** `prepare_text_for_embedding` (code/crawler.py): the text embedded for
    one stored schema.org object, one labelled line per field it reads.
    Python's `str()` of a value that is not a string is the parameter
    `render`; a `TypeError` Python would raise is an `Err`. */
module EmbeddingText {
  import opened Wrappers
  import opened JsonValue
  import Text

  /** The labels, in the order their lines are emitted. */
  datatype Label = TypeLabel | NameLabel | HeadlineLabel | DescriptionLabel | IngredientsLabel | ContentLabel

  function Rank(l: Label): nat {
    match l
    case TypeLabel => 0
    case NameLabel => 1
    case HeadlineLabel => 1
    case DescriptionLabel => 2
    case IngredientsLabel => 3
    case ContentLabel => 4
  }

  function LabelText(l: Label): string {
    match l
    case TypeLabel => "Type"
    case NameLabel => "Name"
    case HeadlineLabel => "Headline"
    case DescriptionLabel => "Description"
    case IngredientsLabel => "Ingredients"
    case ContentLabel => "Content"
  }

  datatype Part = Part(heading: Label, text: string)

  /** `f"{label}: {text}"`. */
  function Line(p: Part): string {
    LabelText(p.heading) + ": " + p.text
  }

  /** `f"{v}"`: a string is itself, anything else is rendered by `str()`. */
  function Show(render: Json -> string, v: Json): string {
    if v.JStr? then v.s else render(v)
  }

  const MaxIngredients: nat := 10
  const MaxContent: nat := 500

  function Min(a: nat, b: nat): nat {
    if a <= b then a else b
  }

  function TypePart(render: Json -> string, obj: map<string, Json>): (r: Result<seq<Part>>)
    ensures r.Ok? ==> |r.value| <= 1 && forall p :: p in r.value ==> p.heading == TypeLabel
    ensures r.Ok? ==> (|r.value| == 1 <==> "@type" in obj)
    ensures r.Err? <==> "@type" in obj && obj["@type"].JArr? && AllStrings(obj["@type"].items).None?
  {
    if "@type" !in obj then Ok([])
    else match obj["@type"]
      case JArr(items) =>
        (match AllStrings(items)
         case Some(names) => Ok([Part(TypeLabel, Text.Join(names, ", "))])
         case None => Err("sequence item: expected str instance"))
      case v => Ok([Part(TypeLabel, Show(render, v))])
  }

  function TitlePart(render: Json -> string, obj: map<string, Json>): (r: seq<Part>)
    ensures |r| <= 1 && forall p :: p in r ==> Rank(p.heading) == 1
    ensures |r| == 1 <==> "name" in obj || "headline" in obj
    ensures |r| == 1 ==> (r[0].heading == NameLabel <==> "name" in obj)
  {
    if "name" in obj then [Part(NameLabel, Show(render, obj["name"]))]
    else if "headline" in obj then [Part(HeadlineLabel, Show(render, obj["headline"]))]
    else []
  }

  function DescriptionPart(render: Json -> string, obj: map<string, Json>): (r: seq<Part>)
    ensures |r| <= 1 && forall p :: p in r ==> p.heading == DescriptionLabel
    ensures |r| == 1 <==> "description" in obj
  {
    if "description" in obj then [Part(DescriptionLabel, Show(render, obj["description"]))] else []
  }

  predicate HasIngredientList(obj: map<string, Json>) {
    "recipeIngredient" in obj && obj["recipeIngredient"].JArr?
  }

  /** `recipeIngredient[:10]`. */
  function Ingredients(obj: map<string, Json>): (r: seq<Json>)
    requires HasIngredientList(obj)
    ensures |r| == Min(MaxIngredients, |obj["recipeIngredient"].items|)
    ensures r <= obj["recipeIngredient"].items
  {
    var items := obj["recipeIngredient"].items;
    items[..Min(MaxIngredients, |items|)]
  }

  /** The first ten ingredients, when `recipeIngredient` is a list. */
  function IngredientsPart(obj: map<string, Json>): (r: Result<seq<Part>>)
    ensures r.Ok? ==> |r.value| <= 1 && forall p :: p in r.value ==> p.heading == IngredientsLabel
    ensures r.Ok? ==> (|r.value| == 1 <==> HasIngredientList(obj))
    ensures r.Err? <==> HasIngredientList(obj) && AllStrings(Ingredients(obj)).None?
    ensures r.Ok? && |r.value| == 1 ==> r.value[0].text == Text.Join(AllStrings(Ingredients(obj)).value, ", ")
  {
    if !HasIngredientList(obj) then Ok([])
    else
      match AllStrings(Ingredients(obj))
      case Some(names) => Ok([Part(IngredientsLabel, Text.Join(names, ", "))])
      case None => Err("sequence item: expected str instance")
  }

  /** `articleBody[:500]`: a string or a list is cut to its first 500
      characters or elements; slicing anything else raises. */
  function ContentPart(render: Json -> string, obj: map<string, Json>): (r: Result<seq<Part>>)
    ensures r.Ok? ==> |r.value| <= 1 && forall p :: p in r.value ==> p.heading == ContentLabel
    ensures r.Ok? ==> (|r.value| == 1 <==> "articleBody" in obj)
    ensures r.Err? <==> "articleBody" in obj && !obj["articleBody"].JStr? && !obj["articleBody"].JArr?
    ensures r.Ok? && |r.value| == 1 && obj["articleBody"].JStr? ==>
      |r.value[0].text| == Min(MaxContent, |obj["articleBody"].s|) && r.value[0].text <= obj["articleBody"].s
  {
    if "articleBody" !in obj then Ok([])
    else match obj["articleBody"]
      case JStr(s) => Ok([Part(ContentLabel, s[..Min(MaxContent, |s|)])])
      case JArr(a) => Ok([Part(ContentLabel, render(JArr(a[..Min(MaxContent, |a|)])))])
      case _ => Err("unhashable type: 'slice'")
  }

  function Labels(ps: seq<Part>): (r: seq<Label>)
    ensures |r| == |ps| && forall i :: 0 <= i < |ps| ==> r[i] == ps[i].heading
  {
    seq(|ps|, i requires 0 <= i < |ps| => ps[i].heading)
  }

  /** The labelled parts of an object, in emission order: the type, the name
      or else the headline, the description, the ingredients, the content. */
  function Parts(render: Json -> string, obj: map<string, Json>): (r: Result<seq<Part>>)
    ensures r.Ok? <==> TypePart(render, obj).Ok? && IngredientsPart(obj).Ok? && ContentPart(render, obj).Ok?
    ensures r.Ok? ==> r.value == TypePart(render, obj).value + TitlePart(render, obj) + DescriptionPart(render, obj)
                                 + IngredientsPart(obj).value + ContentPart(render, obj).value
  {
    match TypePart(render, obj)
    case Err(e) => Err(e)
    case Ok(t) =>
      match IngredientsPart(obj)
      case Err(e) => Err(e)
      case Ok(g) =>
        match ContentPart(render, obj)
        case Err(e) => Err(e)
        case Ok(c) => Ok(t + TitlePart(render, obj) + DescriptionPart(render, obj) + g + c)
  }

  /** The lines come in the fixed order Type, Name or Headline, Description,
      Ingredients, Content, each at most once. */
  lemma PartsOrdered(render: Json -> string, obj: map<string, Json>)
    requires Parts(render, obj).Ok?
    ensures var ps := Parts(render, obj).value;
      forall i, j :: 0 <= i < j < |ps| ==> Rank(ps[i].heading) < Rank(ps[j].heading)
  {
    var t, n, d := TypePart(render, obj).value, TitlePart(render, obj), DescriptionPart(render, obj);
    var g, c := IngredientsPart(obj).value, ContentPart(render, obj).value;
    OrderedGroups(t, n, d, g, c);
  }

  /** At most one part, of rank `k`. */
  predicate Group(b: seq<Part>, k: nat) {
    |b| <= 1 && forall p :: p in b ==> Rank(p.heading) == k
  }

  lemma OrderedGroups(t: seq<Part>, n: seq<Part>, d: seq<Part>, g: seq<Part>, c: seq<Part>)
    requires Group(t, 0) && Group(n, 1) && Group(d, 2) && Group(g, 3) && Group(c, 4)
    ensures Ordered(t + n + d + g + c)
  {
    OrderedAppend([], t, 0);
    assert [] + t == t;
    OrderedAppend(t, n, 1);
    OrderedAppend(t + n, d, 2);
    OrderedAppend(t + n + d, g, 3);
    OrderedAppend(t + n + d + g, c, 4);
  }

  /** Ranks strictly increase along `ps`. */
  predicate Ordered(ps: seq<Part>) {
    forall i, j :: 0 <= i < j < |ps| ==> Rank(ps[i].heading) < Rank(ps[j].heading)
  }

  /** Appending a group of at most one part of rank `k` after parts of
      lower rank keeps the ranks increasing. */
  lemma OrderedAppend(a: seq<Part>, b: seq<Part>, k: nat)
    requires Ordered(a) && forall i :: 0 <= i < |a| ==> Rank(a[i].heading) < k
    requires Group(b, k)
    ensures Ordered(a + b) && forall i :: 0 <= i < |a + b| ==> Rank((a + b)[i].heading) < k + 1
  {
    if |b| == 1 {
      assert b[0] in b;
    }
  }

  /** Whether an object gets a line with label `l`: the type line exactly
      when `@type` is present, the name line when `name` is, else the
      headline line when `headline` is, the description when present, the
      ingredients only for a list, and the content when `articleBody` is
      present. */
  predicate Expected(obj: map<string, Json>, l: Label) {
    match l
    case TypeLabel => "@type" in obj
    case NameLabel => "name" in obj
    case HeadlineLabel => "headline" in obj && "name" !in obj
    case DescriptionLabel => "description" in obj
    case IngredientsLabel => HasIngredientList(obj)
    case ContentLabel => "articleBody" in obj
  }

  /** Exactly the expected lines appear. */
  lemma PartsPresent(render: Json -> string, obj: map<string, Json>)
    requires Parts(render, obj).Ok?
    ensures forall l :: l in Labels(Parts(render, obj).value) <==> Expected(obj, l)
  {
    var t, n, d := TypePart(render, obj).value, TitlePart(render, obj), DescriptionPart(render, obj);
    var g, c := IngredientsPart(obj).value, ContentPart(render, obj).value;
    GroupLabels(t, n, d, g, c);
    assert Labels(n) == if "name" in obj then [NameLabel] else if "headline" in obj then [HeadlineLabel] else [];
  }

  /** The labels of the five groups laid end to end. */
  lemma GroupLabels(t: seq<Part>, n: seq<Part>, d: seq<Part>, g: seq<Part>, c: seq<Part>)
    requires |t| <= 1 && forall p :: p in t ==> p.heading == TypeLabel
    requires |d| <= 1 && forall p :: p in d ==> p.heading == DescriptionLabel
    requires |g| <= 1 && forall p :: p in g ==> p.heading == IngredientsLabel
    requires |c| <= 1 && forall p :: p in c ==> p.heading == ContentLabel
    ensures forall l :: l in Labels(t + n + d + g + c) <==>
      || (l == TypeLabel && |t| == 1) || l in Labels(n) || (l == DescriptionLabel && |d| == 1)
      || (l == IngredientsLabel && |g| == 1) || (l == ContentLabel && |c| == 1)
  {
    LabelsConcat(t, n); LabelsConcat(t + n, d); LabelsConcat(t + n + d, g); LabelsConcat(t + n + d + g, c);
    SingleLabel(t, TypeLabel);
    SingleLabel(d, DescriptionLabel);
    SingleLabel(g, IngredientsLabel);
    SingleLabel(c, ContentLabel);
  }

  lemma LabelsConcat(a: seq<Part>, b: seq<Part>)
    ensures Labels(a + b) == Labels(a) + Labels(b)
  {
  }

  /** A group of at most one part, all carrying label `l`. */
  lemma SingleLabel(ps: seq<Part>, l: Label)
    requires |ps| <= 1 && forall p :: p in ps ==> p.heading == l
    ensures forall m :: m in Labels(ps) <==> m == l && |ps| == 1
  {
    if |ps| == 1 {
      assert ps[0] in ps;
      assert Labels(ps) == [l];
    } else {
      assert Labels(ps) == [];
    }
  }

  /** `prepare_text_for_embedding(obj)`: the parts' lines joined by newlines. */
  function PrepareTextForEmbedding(render: Json -> string, obj: map<string, Json>): (r: Result<string>)
    ensures r.Ok? <==> Parts(render, obj).Ok?
  {
    match Parts(render, obj)
    case Err(e) => Err(e)
    case Ok(ps) => Ok(Text.Join(Lines(ps), "\n"))
  }

  function Lines(ps: seq<Part>): (r: seq<string>)
    ensures |r| == |ps|
    ensures forall i :: 0 <= i < |ps| ==> r[i] == Line(ps[i])
  {
    seq(|ps|, i requires 0 <= i < |ps| => Line(ps[i]))
  }

  lemma NoNewlineInLabel(l: Label)
    ensures '\n' !in LabelText(l) + ": "
  {
    match l
    case TypeLabel =>
    case NameLabel =>
    case HeadlineLabel =>
    case DescriptionLabel =>
    case IngredientsLabel =>
    case ContentLabel =>
  }

  /** The text splits back into its lines when no field value contains a
      newline: each line is one labelled part. */
  lemma TextSplitsIntoLines(render: Json -> string, obj: map<string, Json>)
    requires Parts(render, obj).Ok? && |Parts(render, obj).value| >= 1
    requires forall p :: p in Parts(render, obj).value ==> '\n' !in p.text
    ensures Text.Split(PrepareTextForEmbedding(render, obj).value, '\n') == Lines(Parts(render, obj).value)
  {
    var ps := Parts(render, obj).value;
    forall k | 0 <= k < |ps| ensures '\n' !in Lines(ps)[k] {
      NoNewlineInLabel(ps[k].heading);
      assert ps[k] in ps;
      assert Lines(ps)[k] == (LabelText(ps[k].heading) + ": ") + ps[k].text;
    }
    Text.SplitJoin(Lines(ps), '\n');
  }
}
