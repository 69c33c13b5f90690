# Navigation keyboards and channel settings of the meme-trading Telegram bot

This project models the two pieces of self-contained logic in the bot:

- **The navigation keyboard builder** (`bu/getInlineKeyboard.js`), in modules `CallbackIds` and `Navigation`.
  - A constant table, `navigationMap`, maps each section name to a title and a grid of button labels.
  - `getInlineKeyboard(section = "main")` turns one section's grid into a grid of buttons.
    - Each button is a label and a callback id.
    - The callback id is the label lower-cased, with every run of whitespace replaced by `_`.
    - Every section except `main` gets one extra last row holding a "Back to Main Menu" button.
    - An unknown section gives an empty keyboard.
  - `getNavigationText(section = "main")` returns the section's title, or `"Menu"` for an unknown section.
- **The channel settings lookup** (`channelConfig.js`), in module `Channels`.
  - A constant table maps channel ids to reply settings.
  - `getChannelConfig(channelId)` returns the stored entry, or the default `{allowReplies: true, replyProbability: 1}`.

How the model maps the code:

- Telegraf's `Markup.button.callback(label, data)` is the datatype `Button(text, callbackData)`.
- `Markup.inlineKeyboard(rows)` is a `seq<seq<Button>>`.
- The JavaScript default parameter `section = "main"` is a Dafny default-valued parameter.
- A missing optional field of a channel entry is `None` of `Wrappers.Option`.
- The probabilities 0.5 and 1 are `real` literals. No arithmetic is done on them.
- Both character classes of the normalisation are restricted to ASCII:
  - lower-casing affects only `A`..`Z`;
  - whitespace means space, tab, line feed, vertical tab, form feed and carriage return.

`CallbackIds.ReplaceWhitespaceRuns` models `replace(/\s+/g, "_")` the way the regular expression reads: it skips a whole maximal run of whitespace in one step. The character-by-character definition `CallbackIds.CollapseFrom` is an independent reference, and `CallbackIds.ReplaceIsCollapse` proves the two equal. The algebraic facts (concatenation, identity, one run becoming one `_`) are proved about the reference and carried over to the modelled function.

## Model

| member | source | states |
|---|---|---|
| CallbackIds.IsWhitespace | bu/getInlineKeyboard.js:40 | the ASCII part of the class `\s` is exactly the space and the control characters U+0009 to U+000D |
| CallbackIds.LowerChar | bu/getInlineKeyboard.js:40 | an upper-case letter becomes the letter at the same place in the lower-case alphabet, and any other character is unchanged; the result is never upper-case, and is whitespace exactly when the input is |
| CallbackIds.ToLower | bu/getInlineKeyboard.js:40 | `toLowerCase` lower-cases every character in place: same length, character i is `LowerChar` of input character i, whitespace positions are kept and no upper-case letter is left |
| CallbackIds.ToLowerIdentity | bu/getInlineKeyboard.js:40 | lower-casing a string that has no upper-case letter returns it unchanged |
| CallbackIds.LeadingWhitespace | bu/getInlineKeyboard.js:40 | the length of the maximal whitespace run at the front: every character before it is whitespace and the one after it is not |
| CallbackIds.LeadingWhitespaceUnique | bu/getInlineKeyboard.js:40 | any length with those three properties is that run length, so the run is maximal and unique |
| CallbackIds.Step | bu/getInlineKeyboard.js:40 | each step of the scan consumes at least one and at most all remaining characters |
| CallbackIds.ReplaceWhitespaceRuns | bu/getInlineKeyboard.js:40 | the output of `replace(/\s+/g, "_")` is never longer than its input |
| CallbackIds.ReplaceNoWhitespace | bu/getInlineKeyboard.js:40 | the output of the replacement contains no whitespace |
| CallbackIds.ReplaceNoUpper | bu/getInlineKeyboard.js:40 | the replacement adds no upper-case letter |
| CallbackIds.CallbackData | bu/getInlineKeyboard.js:40 | a derived callback id contains no whitespace and no ASCII upper-case letter, and is never longer than its label |
| CallbackIds.CollapseFrom | bu/getInlineKeyboard.js:40 | the independent character-by-character reading of `replace(/\s+/g, "_")`: one `_` at the start of each whitespace run and nothing for the rest of the run; never longer than its input |
| CallbackIds.CollapseSkipsRun | bu/getInlineKeyboard.js:40 | after whitespace, the reference scan emits nothing for the rest of a whitespace run |
| CallbackIds.ReplaceIsCollapse | bu/getInlineKeyboard.js:40 | the run-at-a-time replacement equals the character-by-character reference that emits one `_` at the start of each run |
| CallbackIds.CollapseConcat | bu/getInlineKeyboard.js:40 | the reference scan of `a + b` is the scan of `a` followed by the scan of `b` started in the state `a` ended in |
| CallbackIds.CollapseIgnoresPrevious | bu/getInlineKeyboard.js:40 | a string empty or starting with a non-whitespace character is scanned the same whatever came before |
| CallbackIds.CollapseIdentity | bu/getInlineKeyboard.js:40 | the reference scan leaves a string without whitespace unchanged |
| CallbackIds.CollapseDropsRun | bu/getInlineKeyboard.js:40 | after whitespace, the reference scan of an all-whitespace string emits nothing |
| CallbackIds.ReplaceIdentity | bu/getInlineKeyboard.js:40 | a string with no whitespace passes through the replacement unchanged |
| CallbackIds.WhitespaceRunCollapses | bu/getInlineKeyboard.js:40 | a non-empty run made only of whitespace becomes exactly one `_` |
| CallbackIds.ReplaceConcat | bu/getInlineKeyboard.js:40 | the replacement distributes over concatenation when the split is not inside a whitespace run |
| CallbackIds.CallbackDataIdempotent | bu/getInlineKeyboard.js:40 | normalising a callback id a second time changes nothing |
| CallbackIds.ReplaceWordStep | bu/getInlineKeyboard.js:40 | a word followed by one whitespace character keeps the word, turns the whitespace into `_`, and replaces the rest on its own |
| CallbackIds.CollapseWordStep | bu/getInlineKeyboard.js:40 | the same step for the reference scan |
| CallbackIds.ReplaceJoined | bu/getInlineKeyboard.js:40 | words separated by single whitespace characters come out separated by `_` |
| CallbackIds.CallbackDataOfWords | bu/getInlineKeyboard.js:40 | a label whose lower-cased form is words separated by single whitespace characters gets the words joined by `_` as its id |
| CallbackIds.InviteFriendsLower | bu/getInlineKeyboard.js:11 | "Invite Friends" lower-cases to "invite friends" |
| CallbackIds.InviteFriendsWords | bu/getInlineKeyboard.js:11 | the words of "invite friends" joined by a space and by `_` |
| CallbackIds.InviteFriendsId | bu/getInlineKeyboard.js:11 | the label "Invite Friends" gets the id "invite_friends" |
| CallbackIds.BackToMainMenuLower | bu/getInlineKeyboard.js:47 | "Back to Main Menu" lower-cases to "back to main menu" |
| CallbackIds.BackToMainMenuWords | bu/getInlineKeyboard.js:47 | the words of "back to main menu" joined by spaces |
| CallbackIds.BackToMainMenuJoined | bu/getInlineKeyboard.js:47 | the same words joined by `_` give "back_to_main_menu" |
| CallbackIds.BackToMainMenuId | bu/getInlineKeyboard.js:47 | the hard-coded id "back_to_main_menu" is what the normalisation derives from the label "Back to Main Menu" |
| Navigation.LabelButton | bu/getInlineKeyboard.js:40-41 | a button keeps its label, and its id has no whitespace and no upper-case letter |
| Navigation.ButtonRow | bu/getInlineKeyboard.js:39-42 | a row of buttons has one button per label, with the labels in order |
| Navigation.NavigationMap | bu/getInlineKeyboard.js:3-29 | transcribes lines 3-29: the sections `main`, `nft_trades` and `ft_swaps`, each with its title and its rows of labels in order |
| Navigation.BackRow | bu/getInlineKeyboard.js:46-48 | the appended row holds one button labelled "Back to Main Menu", whose hard-coded id "back_to_main_menu" is the normalised label |
| Navigation.GetInlineKeyboard | bu/getInlineKeyboard.js:31-52 | an unknown section gives zero rows; a known one gives one row per label row plus one more exactly when it is not `main`; row i has the labels of label row i in order; the extra row is last and is the Back row |
| Navigation.GetNavigationText | bu/getInlineKeyboard.js:54-56 | the stored title for a known section, `"Menu"` for any other string, and never an empty string |
| Navigation.NoLabelIsBack | bu/getInlineKeyboard.js:3-29 | no label in the table is "Back to Main Menu" |
| Navigation.EveryCallbackIdDerived | bu/getInlineKeyboard.js:38-49 | every button of every keyboard, the Back button included, has the normalised label as its id, so no id holds whitespace or an upper-case letter |
| Navigation.BackButtonIffNotMain | bu/getInlineKeyboard.js:32-49 | the Back button appears in a keyboard exactly when the section is known and is not `main` |
| Navigation.DefaultKeyboardIsMain | bu/getInlineKeyboard.js:4-45 | with no argument, the keyboard is the main one: six rows of 2, 2, 2, 2, 1 and 1 buttons and no Back button |
| Navigation.NavigationTextExamples | bu/getInlineKeyboard.js:54-56 | the default title is "Main Menu", "nft_trades" is titled "NFT Trades", and an unknown section is titled "Menu" |
| Channels.ChannelTable | channelConfig.js:1-11 | transcribes lines 1-11: "@channel1" with replies on, probability 0.5 and its custom prompt, and "@channel2" with replies off and no other field |
| Channels.DefaultConfig | channelConfig.js:14 | transcribes the default of line 14: replies on, probability 1, no custom prompt |
| Channels.GetChannelConfig | channelConfig.js:13-15 | the stored entry, unchanged, for an id in the table, and the default `{allowReplies: true, replyProbability: 1}` for any other id |
| Channels.ConfigIsStoredOrDefault | channelConfig.js:1-15 | the result is always one of the stored entries or the default |
| Channels.Channel2NotMerged | channelConfig.js:7-14 | "@channel2" does not allow replies and has no reply probability; the default is not merged in |
| Channels.ReplyProbabilityInRange | channelConfig.js:1-15 | a reply probability, where one is set, lies between 0 and 1 |

## Left out

- The `console.error` message that `getInlineKeyboard` logs for an unknown section (bu/getInlineKeyboard.js:34) is I/O. It leaves the result unchanged.
- Telegraf's `Markup` objects are not modelled beyond their rows of labels and callback ids. This covers the `reply_markup` wrapper and the `hide` flag on each button.
- Non-ASCII characters are not modelled: JavaScript's `toLowerCase` and `\s` also cover them.
- Inherited object properties are not modelled. Looking up a name such as "toString" or "__proto__" finds a property of `Object.prototype`, not an entry of the table.
  - For `getInlineKeyboard` such a lookup makes the code throw.
  - For `getChannelConfig` it returns that property.
  - The model treats every key not in the table as missing.
- `getChannelConfig` turns a numeric channel id into its string form before the lookup. The model takes string ids only.
- That the lookups never change a table holds by construction: the tables are Dafny constants and every operation is a function. No separate lemma states it.
- The callback id of "Join our telegram group" is not proved as a concrete string. Like every other id, it is covered by `Navigation.EveryCallbackIdDerived` and the general lemmas.
- Everything else in the repository is I/O glue with no local logic worth a model. This covers:
  - Telegraf handlers and scenes (bu.js, main.js, commands.js, messageHandlers.js, lib/navigation.js, bu/scenes.js);
  - the LLM and embedding calls (aiService.js, aiAgent.js, ragAgent.js, lib/aiWelcome.js);
  - the Postgres persistence (database.js);
  - the timer and delete helpers (utils.js, lib/utils.js);
  - the random reply gate and `parseFloat` in bu.js.
- No message batching queue appears in the source, so none is modelled.
