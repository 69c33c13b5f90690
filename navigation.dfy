/**
 * The navigation keyboards of bu/getInlineKeyboard.js: a constant table of menu
 * sections, the inline keyboard built for a section, and the section's title.
 */
module Navigation {
  import opened CallbackIds

  /** `Markup.button.callback(text, data)`: a button and the id sent back when it is pressed. */
  datatype Button = Button(text: string, callbackData: string)

  /** `Markup.inlineKeyboard(rows)`: rows of buttons, top to bottom. */
  type Keyboard = seq<seq<Button>>

  /** One entry of the navigation table: a title and a grid of button labels. */
  datatype Section = Section(text: string, buttons: seq<seq<string>>)

  /** The section shown when no section is named. */
  const MainSection: string := "main"

  /** The button appended to every section other than the main one. */
  const BackText: string := "Back to Main Menu"
  const BackCallbackData: string := "back_to_main_menu"

  /** The title used for a section that is not in the table. */
  const FallbackText: string := "Menu"

  /** `navigationMap`. */
  const NavigationMap: map<string, Section> := map[
    "main" := Section("Main Menu", [
      ["meme trade", "meme swaps"],
      ["new tokens", "new pools"],
      ["burrow", "price"],
      ["token info", "account info"],
      ["Invite Friends"],
      ["Join our telegram group"]
    ]),
    "nft_trades" := Section("NFT Trades", [
      ["Invite Friends"],
      ["Join our telegram group"]
    ]),
    "ft_swaps" := Section("FT Swaps", [
      ["Invite Friends"],
      ["Join our telegram group"]
    ])
  ]

  /** The label grid of a section of the table. */
  function Grid(section: string): seq<seq<string>>
    requires section in NavigationMap
  {
    NavigationMap[section].buttons
  }

  /** The button for one label: its id is the label normalised by CallbackData. */
  function LabelButton(text: string): (b: Button)
    ensures b.text == text
    ensures NoWhitespace(b.callbackData) && NoUpper(b.callbackData)
  {
    Button(text, CallbackData(text))
  }

  /** One row of labels turned into a row of buttons (the inner `row.map`). */
  function ButtonRow(row: seq<string>): (r: seq<Button>)
    ensures |r| == |row|
    ensures forall j :: 0 <= j < |row| ==> r[j].text == row[j]
  {
    seq(|row|, j requires 0 <= j < |row| => LabelButton(row[j]))
  }

  /**
   * The row appended after a non-main section's own rows: one button, whose
   * hard-coded id is the one the normalisation derives from its label.
   */
  function BackRow(): (r: seq<Button>)
    ensures |r| == 1 && r[0].text == BackText
    ensures r[0].callbackData == CallbackData(r[0].text)
  {
    BackToMainMenuId();
    [Button(BackText, BackCallbackData)]
  }

  /**
   * `getInlineKeyboard(section = "main")`: no rows for a section that is not in
   * the table; otherwise one button row per label row, with the labels kept in
   * order, followed by the Back row exactly when the section is not the main one.
   */
  function GetInlineKeyboard(section: string := MainSection): (k: Keyboard)
    ensures section !in NavigationMap ==> k == []
    ensures section in NavigationMap ==>
      |k| == |Grid(section)| + (if section == MainSection then 0 else 1)
    ensures section in NavigationMap ==>
      forall i :: 0 <= i < |Grid(section)| ==>
        |k[i]| == |Grid(section)[i]| &&
        forall j :: 0 <= j < |k[i]| ==> k[i][j].text == Grid(section)[i][j]
    ensures section in NavigationMap && section != MainSection ==> k[|k| - 1] == BackRow()
  {
    if section !in NavigationMap then
      []
    else
      var grid := Grid(section);
      var rows := seq(|grid|, i requires 0 <= i < |grid| => ButtonRow(grid[i]));
      if section != MainSection then rows + [BackRow()] else rows
  }

  /**
   * `getNavigationText(section = "main")`: the section's title, or "Menu" when the
   * section is not in the table. The `||` fallback would also replace an empty
   * title; no title in the table is empty.
   */
  function GetNavigationText(section: string := MainSection): (t: string)
    ensures section in NavigationMap ==> t == NavigationMap[section].text
    ensures section !in NavigationMap ==> t == FallbackText
    ensures t != []
  {
    if section in NavigationMap && NavigationMap[section].text != "" then
      NavigationMap[section].text
    else
      FallbackText
  }

  /** No label in the table is the Back button's label. */
  lemma NoLabelIsBack(section: string, i: nat, j: nat)
    requires section in NavigationMap && i < |Grid(section)| && j < |Grid(section)[i]|
    ensures Grid(section)[i][j] != BackText
  {
    var l := Grid(section)[i][j];
    assert |l| != |BackText|;
  }

  /**
   * Every button's callback id is its label normalised, so no id holds whitespace
   * or an upper-case letter. For the Back button this holds because its
   * hard-coded id matches its label.
   */
  lemma EveryCallbackIdDerived(section: string)
    ensures var k := GetInlineKeyboard(section);
      forall i, j :: 0 <= i < |k| && 0 <= j < |k[i]| ==>
        k[i][j].callbackData == CallbackData(k[i][j].text) &&
        NoWhitespace(k[i][j].callbackData) && NoUpper(k[i][j].callbackData)
  {
  }

  /**
   * The Back button appears in a keyboard exactly when the section is in the
   * table and is not the main one; it is then the only button of the last row.
   */
  lemma BackButtonIffNotMain(section: string)
    ensures var k := GetInlineKeyboard(section);
      (exists i, j :: 0 <= i < |k| && 0 <= j < |k[i]| && k[i][j].text == BackText)
      <==> section in NavigationMap && section != MainSection
  {
    var k: Keyboard := GetInlineKeyboard(section);
    if section in NavigationMap {
      var g := Grid(section);
      forall i, j | 0 <= i < |g| && 0 <= j < |k[i]| ensures k[i][j].text != BackText {
        NoLabelIsBack(section, i, j);
      }
      if section != MainSection {
        assert k[|k| - 1][0].text == BackText;
      }
    }
  }

  /**
   * Called with no argument, the keyboard is the main one: six rows of 2, 2, 2,
   * 2, 1 and 1 buttons and no Back row.
   */
  lemma DefaultKeyboardIsMain()
    ensures GetInlineKeyboard() == GetInlineKeyboard(MainSection)
    ensures var k := GetInlineKeyboard();
      |k| == 6 &&
      |k[0]| == 2 && |k[1]| == 2 && |k[2]| == 2 && |k[3]| == 2 && |k[4]| == 1 && |k[5]| == 1 &&
      forall i, j :: 0 <= i < |k| && 0 <= j < |k[i]| ==> k[i][j].text != BackText
  {
    var k: Keyboard := GetInlineKeyboard();
    forall i, j | 0 <= i < |k| && 0 <= j < |k[i]| ensures k[i][j].text != BackText {
      NoLabelIsBack(MainSection, i, j);
    }
  }

  /** The default title is the main section's; an unknown section is titled "Menu". */
  lemma NavigationTextExamples(section: string)
    requires section !in NavigationMap
    ensures GetNavigationText() == "Main Menu"
    ensures GetNavigationText("nft_trades") == "NFT Trades"
    ensures GetNavigationText(section) == "Menu"
  {
  }
}
