/** The category catalogue: the ten built-in categories (get_categories) and the
    resolution of a menu number to a category (select_category and the menu of
    show_passwords_by_category). */
module Categories {
  import opened Text

  /** get_categories(). A Dafny sequence is a value, so every caller gets its own copy
      and nothing a caller does to it reaches another caller. */
  function BuiltinCategories(): (cats: seq<string>)
    ensures |cats| == 10
    ensures forall i, j :: 0 <= i < j < |cats| ==> cats[i] != cats[j]
    ensures forall i :: 0 <= i < |cats| ==> cats[i] != [] && IsTrimmed(cats[i])
  {
    [
      "Соцсети",
      "Банки/Финансы",
      "Работа/Бизнес",
      "Электронная почта",
      "Образование",
      "Развлечения",
      "Магазины/Покупки",
      "Здоровье/Медицина",
      "Государственные услуги",
      "Другое"
    ]
  }

  /** The three categories the tests look for are present. */
  lemma KeyCategoriesPresent()
    ensures "Соцсети" in BuiltinCategories()
    ensures "Банки/Финансы" in BuiltinCategories()
    ensures "Другое" in BuiltinCategories()
  {
    var cats := BuiltinCategories();
    assert cats[0] == "Соцсети" && cats[1] == "Банки/Финансы" && cats[9] == "Другое";
  }

  /** What a menu number selects. */
  datatype Choice = Standard(name: string) | Custom(name: string) | CreateNew | Invalid

  /** The number-to-category rule of select_category, for S standard and C custom
      categories: 1..S, then S+1..S+C, then S+C+1 for "create a new category". */
  function ResolveChoice(standard: seq<string>, custom: seq<string>, n: int): Choice {
    if 1 <= n <= |standard| then Standard(standard[n - 1])
    else if |standard| < n <= |standard| + |custom| then Custom(custom[n - |standard| - 1])
    else if n == |standard| + |custom| + 1 then CreateNew
    else Invalid
  }

  /** One answer to select_category's prompt: stripped, then read as a number if it is one.
      Anything else is Invalid (the prompt loop asks again). */
  function SelectCategory(custom: seq<string>, answer: string): Choice {
    var choice := Strip(answer);
    if IsDigits(choice) then ResolveChoice(BuiltinCategories(), custom, ParseDigits(choice))
    else Invalid
  }

  /** The menu as printed: the built-in categories numbered from 1, then the custom ones. */
  function Menu(custom: seq<string>): seq<string> {
    BuiltinCategories() + custom
  }

  /** A number resolves to the category printed beside it, the number after the last
      category to "create new", and every other number to nothing. */
  lemma ResolveMatchesMenu(custom: seq<string>, n: int)
    ensures 1 <= n <= |Menu(custom)| ==>
      ResolveChoice(BuiltinCategories(), custom, n) in {Standard(Menu(custom)[n - 1]), Custom(Menu(custom)[n - 1])}
    ensures 1 <= n <= 10 <==> ResolveChoice(BuiltinCategories(), custom, n).Standard?
    ensures 10 < n <= 10 + |custom| <==> ResolveChoice(BuiltinCategories(), custom, n).Custom?
    ensures ResolveChoice(BuiltinCategories(), custom, n) == CreateNew <==> n == |Menu(custom)| + 1
    ensures ResolveChoice(BuiltinCategories(), custom, n) == Invalid <==> (n < 1 || n > |Menu(custom)| + 1)
  {
  }

  /** Typing the decimal number of a menu line selects that line. */
  lemma SelectByNumber(custom: seq<string>, n: nat)
    ensures SelectCategory(custom, DecimalText(n)) == ResolveChoice(BuiltinCategories(), custom, n)
  {
    DecimalTextTrimmed(n);
    ParseDecimalText(n);
  }

  /** The menu of show_passwords_by_category: a number between 1 and the number of
      categories picks that category; any other answer is rejected. */
  function ChooseListedCategory(custom: seq<string>, answer: string): (r: Option<string>)
    ensures r.Some? ==> r.value in Menu(custom)
  {
    var all := Menu(custom);
    var choice := Strip(answer);
    if IsDigits(choice) && 1 <= ParseDigits(choice) <= |all| then Some(all[ParseDigits(choice) - 1])
    else None
  }

  datatype Option<T> = None | Some(value: T)

  /** Both menus number the categories alike: where select_category picks a category,
      the listing menu picks the same one. */
  lemma ListedAgreesWithSelect(custom: seq<string>, answer: string)
    ensures SelectCategory(custom, answer).Standard? || SelectCategory(custom, answer).Custom?
      <==> ChooseListedCategory(custom, answer).Some?
    ensures ChooseListedCategory(custom, answer).Some? ==>
      ChooseListedCategory(custom, answer).value == SelectCategory(custom, answer).name
  {
  }

  /** The custom categories of an account as create_new_category keeps them: non-empty,
      stripped, none twice and none equal to a built-in one. */
  predicate CustomCatalogue(custom: seq<string>) {
    && (forall i, j :: 0 <= i < j < |custom| ==> custom[i] != custom[j])
    && (forall i :: 0 <= i < |custom| ==> custom[i] != [] && IsTrimmed(custom[i]) && custom[i] !in BuiltinCategories())
  }

  /** Why a new category name is refused. */
  datatype NameCheck = NameOk(name: string) | EmptyName | NameTaken

  /** The checks of create_new_category on one answer: stripped, non-empty, and not already
      a built-in or custom category. */
  function CheckCategoryName(custom: seq<string>, answer: string): NameCheck {
    var name := Strip(answer);
    if name == [] then EmptyName
    else if name in BuiltinCategories() + custom then NameTaken
    else NameOk(name)
  }

  /** Appending an accepted name keeps the catalogue duplicate-free and apart from the
      built-in categories; a refused name is one already taken or empty. */
  lemma {:induction false} AppendKeepsCatalogue(custom: seq<string>, answer: string)
    requires CustomCatalogue(custom)
    ensures CheckCategoryName(custom, answer).NameOk? ==>
      CustomCatalogue(custom + [CheckCategoryName(custom, answer).name])
    ensures CheckCategoryName(custom, answer) == NameTaken <==>
      Strip(answer) != [] && Strip(answer) in Menu(custom)
  {
    var name := Strip(answer);
    var _, _ := StripShape(answer);
    if CheckCategoryName(custom, answer).NameOk? {
      var c := custom + [name];
      forall i | 0 <= i < |custom| ensures c[i] != name {
        assert custom[i] in BuiltinCategories() + custom;
      }
    }
  }
}
