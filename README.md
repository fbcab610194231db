# begans-frontend, the page logic in Dafny

This project models the state logic of the begans front end, a Next.js/React
application for training and managing image-recognition models. It covers
these pieces:

- the "Manage Versions" page: a list of model versions, exactly one of them
  active, with activate and delete buttons on each row;
- the version manager of the training dashboard: a drop-down selection with
  rollback and delete;
- the "Train Model" page: file choice, which picks the model, a chunked
  upload with percentage progress, and a training run that writes shell
  lines and can be stopped;
- the older training dashboard, which needs both files and runs ten epochs;
- the team carousel, whose arrows wrap around;
- the new-chat input: a length limit, the text-box height clamp, the send
  guard and the light/dark theme;
- the login/signup form: the email pattern, the password rule and the order
  of checks before a request is sent;
- the sidebar's `generateUniqueId`, which fills a version-4 UUID template.

Each React component with state is a `class`, except the versions page. Its
fields are the component's `useState` variables, and each handler is a
`method`. The versions page's handlers replace the whole list with a `map` or
a `filter` of it, so they are functions from the old list to the new one. Array and string
helpers of JavaScript (`map`, `filter`, `find`, `findIndex`, `trim`, number
formatting) are functions with contracts in `JsArray` and `JsString`.
Randomness, timers, file contents and server replies become parameters.

## Model

| member | source | states |
|---|---|---|
| ModelVersions.Activate | src/app/training/versions/page.tsx:81-85 | every version stays in place with its other fields; it is active exactly when its id is the one activated |
| ModelVersions.Delete | src/app/training/versions/page.tsx:73-74 | the result holds exactly the versions whose id differs from the deleted one |
| ModelVersions.ActiveVersion | src/app/training/versions/page.tsx:71 | nothing when no version is active, otherwise the first active version |
| ModelVersions.CountActiveAfterActivate | src/app/training/versions/page.tsx:81-85 | activating an id makes active exactly as many versions as carry that id |
| ModelVersions.UniqueIdCountsOnce | src/app/training/versions/page.tsx:81-85 | in a list of unique ids, each listed id occurs exactly once |
| ModelVersions.AbsentIdCountsZero | src/app/training/versions/page.tsx:81-85 | an id that no version carries is counted zero times |
| ModelVersions.ActivateLeavesExactlyOne | src/app/training/versions/page.tsx:81-85 | with unique ids, activating a listed id leaves exactly one version active |
| ModelVersions.ActivateIdempotent | src/app/training/versions/page.tsx:81-85 | activating the same id twice equals activating it once |
| ModelVersions.DeleteKeepsOrder | src/app/training/versions/page.tsx:73-74 | deletion distributes over concatenation and drops one version exactly when its id matches, so survivors keep their order |
| ModelVersions.DeleteAbsentIsIdentity | src/app/training/versions/page.tsx:73-74 | deleting an id that no version carries changes nothing |
| ModelVersions.DeleteInactiveKeepsActiveCount | src/app/training/versions/page.tsx:73-74 | deleting an id carried only by inactive versions keeps the number of active versions |
| ModelVersions.DeleteKeepsUniqueIds | src/app/training/versions/page.tsx:73-74 | deletion keeps ids unique |
| ModelVersions.InitialRegistry | src/app/training/versions/page.tsx:40-65 | the initial list has unique ids and exactly one active version, v2.0.0, which the active card shows |
| ModelVersions.ClickActivate | src/app/training/versions/page.tsx:210-212 | a click on an active row changes nothing; on another row it makes active exactly the versions with that row's id; ids and length never change, and the clicked row ends active |
| ModelVersions.ClickDelete | src/app/training/versions/page.tsx:219-221 | a click on an active row changes nothing; on another row it removes every version with that row's id and keeps every other version |
| ModelVersions.ClickActivateKeepsInvariant | src/app/training/versions/page.tsx:210-212 | an activate click, disabled on the active row, keeps unique ids and exactly one active version |
| ModelVersions.ClickDeleteKeepsInvariant | src/app/training/versions/page.tsx:219-221 | a delete click, disabled on the active row, keeps unique ids and exactly one active version, and never empties the list |
| ModelVersions.ActiveVersionShown | src/app/training/versions/page.tsx:96-99 | with an active version in the list, the active-version card is shown |
| VersionManager.Remove | src/components/Training/VersionManager.tsx:35 | the result holds exactly the versions whose id differs from the removed one |
| VersionManager.SelectedIndex | src/components/Training/VersionManager.tsx:46 | -1 when no version has the selected id, otherwise the first index that has it |
| VersionManager.SecondToLastId | src/components/Training/VersionManager.tsx:41 | none for a list of fewer than two versions or when that version's id is empty; otherwise the id of the version before the last |
| VersionManager.RollbackTarget | src/components/Training/VersionManager.tsx:46-49 | none exactly when the selection is not listed or is the first version; otherwise the id of the version just before the first version with the selected id, the one `findIndex` finds |
| VersionManager.Manager.FetchVersions | src/components/Training/VersionManager.tsx:20-29 | loads the three mock versions, whose ids are unique, and selects the last one, id "3" |
| VersionManager.Manager.SelectVersion | src/components/Training/VersionManager.tsx:67 | selects the given id and leaves the list alone |
| VersionManager.Manager.DeleteVersion | src/components/Training/VersionManager.tsx:33-43 | removes the id; a deleted selection moves to the second-to-last id of the list as it was before the deletion, or to none |
| VersionManager.Manager.ClickDelete | src/components/Training/VersionManager.tsx:80-83 | a disabled button (no selection, or one version or fewer) changes nothing; otherwise deletes the selected version; it keeps ids unique, and with unique ids an enabled delete never empties the list |
| VersionManager.Manager.Rollback | src/components/Training/VersionManager.tsx:45-61 | succeeds exactly when the selection is found at an index above 0 and then selects the previous version; never changes the list |
| VersionManager.RollbackMovesToPrevious | src/components/Training/VersionManager.tsx:45-49 | with unique ids, selecting the version at index i > 0 rolls back to the version at i - 1 |
| VersionManager.RollbackRefuses | src/components/Training/VersionManager.tsx:54-60 | no selection, the first version or an unlisted id all give no rollback target |
| VersionManager.RemoveKeepsUniqueIds | src/components/Training/VersionManager.tsx:35 | removal keeps ids unique |
| VersionManager.RemoveDropsAtMostOne | src/components/Training/VersionManager.tsx:35 | with unique ids, a removal drops at most one version |
| VersionManager.EnabledDeleteKeepsAVersion | src/components/Training/VersionManager.tsx:83 | since the button needs two or more versions, a delete with unique ids never empties the list |
| VersionManager.RemoveKeepsOrder | src/components/Training/VersionManager.tsx:35 | removal distributes over concatenation, so survivors keep their order |
| VersionManager.DeleteCanReselectDeletedId | src/components/Training/VersionManager.tsx:40-42 | re-selection reads the old list: deleting the selected "2" from the loaded list selects "2" again, though no version has that id |
| VersionManager.DeleteLastReselectsNewLast | src/components/Training/VersionManager.tsx:40-42 | when the deleted selection is the last version, the new selection is the version that is now last |
| TrainPage.ModelFor | src/app/training/train/page.tsx:55-65 | some model is chosen exactly when some file is present; which one is stated by `TrainPage.ModelChoiceIsExact` |
| TrainPage.ModelChoiceIsExact | src/app/training/train/page.tsx:55-65 | both files choose Shakti, the ZIP alone Drishti, the JSON alone Chakravyuha, and no file no model; each name fits exactly one case |
| TrainPage.Percent | src/app/training/train/page.tsx:75 | the rounded percentage lies in 0..100 and is 100 once the whole file is uploaded |
| TrainPage.StepsCoverFile | src/app/training/train/page.tsx:67-74 | the number of upload steps is the ceiling of size / 1 MiB: that many chunks cover the file and one fewer does not |
| TrainPage.PercentMonotone | src/app/training/train/page.tsx:75 | more bytes uploaded never gives a lower percentage |
| TrainPage.ScheduleIsMonotoneToFull | src/app/training/train/page.tsx:66-82 | the written progress values lie in 0..100, never decrease and end at 100; an empty file writes none |
| TrainPage.UploadGrowsByChunks | src/app/training/train/page.tsx:72-74 | each step but the last adds exactly one chunk, and the last reaches the file size |
| TrainPage.EpochLineNamesEpoch | src/app/training/train/page.tsx:112 | two epoch lines with different epoch numbers differ, whatever their metrics |
| TrainPage.EpochLinesSplit | src/app/training/train/page.tsx:109-113 | epoch lines split at any point concatenate back to the whole |
| TrainPage.StopDoesNotHaltTraining | src/app/training/train/page.tsx:109-124 | a stopped run still writes every epoch line: the log is two lines longer than the epochs, and without the stop line it equals an unstopped run |
| TrainPage.EpochsInOrder | src/app/training/train/page.tsx:107-113 | an unstopped run writes the start line and then the line of epoch j at position j, for every epoch from 1 to the count |
| TrainPage.RunSoFarStep | src/app/training/train/page.tsx:109-113 | each epoch adds the stop line if Stop is pressed just then, followed by that epoch's line |
| TrainPage.Page.SetEpochs | src/app/training/train/page.tsx:226-234 | the slider sets the epoch count within 1..100 and nothing else |
| TrainPage.Page.SimulateFileUpload | src/app/training/train/page.tsx:66-82 | writes exactly the progress schedule of the file size into that file's entry, and nothing else changes |
| TrainPage.Page.ChangeFile | src/app/training/train/page.tsx:84-94 | no file changes nothing; a file is stored in its slot, names the model for the files now present, and is uploaded |
| TrainPage.Page.StopTraining | src/app/training/train/page.tsx:122-129 | clears the training flag and appends the stop line |
| TrainPage.Page.StartTraining | src/app/training/train/page.tsx:96-120 | without a model nothing happens, and an enabled Start button always starts; otherwise the output is the start line and one line per epoch, with the stop line wherever Stop is pressed; the flag, and with it the Stop button, stays set unless Stop was pressed, and only then is Start enabled again |
| TrainPage.Page.RunEpochs | src/app/training/train/page.tsx:109-113 | the epoch loop writes the output of every epoch and leaves the flag set unless Stop was pressed before the last epoch line |
| TrainingDashboard.CompletedLineNamesEpoch | src/components/Training/Dashboard.tsx:29 | two epoch lines with different epoch numbers differ, whatever their losses |
| TrainingDashboard.RunLogShape | src/components/Training/Dashboard.tsx:23-33 | a run writes 11 lines: epochs 1 to 10 once each, then the completion line, which appears nowhere else |
| TrainingDashboard.Dashboard.SetImagesZip | src/components/Training/Dashboard.tsx:48 | the upload field stores the chosen file, or none when the choice is cleared |
| TrainingDashboard.Dashboard.SetJsonFile | src/components/Training/Dashboard.tsx:53 | the upload field stores the chosen file, or none when the choice is cleared |
| TrainingDashboard.Dashboard.StartTraining | src/components/Training/Dashboard.tsx:17-34 | starts exactly when both files are present, so always when the button is enabled; the output is then the whole run log and the flag is cleared |
| TeamCarousel.NextIndex | src/app/about/team/page.tsx:61 | inside the list, "next" is the successor modulo five |
| TeamCarousel.PrevIndex | src/app/about/team/page.tsx:59 | inside the list, "previous" stays in the list and "next" undoes it |
| TeamCarousel.DirectionOf | src/app/about/team/page.tsx:57 | the direction is 1 for next and -1 for previous |
| TeamCarousel.Carousel.CurrentMember | src/app/about/team/page.tsx:65 | the member shown is one of the team |
| TeamCarousel.Carousel.Navigate | src/app/about/team/page.tsx:56-63 | records the direction and moves the index one step, wrapping at both ends, staying in range |
| TeamCarousel.StepStaysInRange | src/app/about/team/page.tsx:59-61 | both arrows keep the index within the list |
| TeamCarousel.PressesStayInRange | src/app/about/team/page.tsx:53-63 | any sequence of presses from the first member stays in range |
| TeamCarousel.NextIsSuccessorModCount | src/app/about/team/page.tsx:59-61 | next is successor modulo five, and previous is its inverse |
| TeamCarousel.NextTimesIsModular | src/app/about/team/page.tsx:61 | k presses of next move k places round the circle |
| TeamCarousel.FullCircle | src/app/about/team/page.tsx:9-50 | five presses of next return to the starting member |
| NewChat.Truncate | src/app/new-chat/page.tsx:64 | the kept text is a prefix of what was typed, at most 1000 characters, all of it when it fits |
| NewChat.TruncateIdempotent | src/app/new-chat/page.tsx:64 | truncating twice equals truncating once |
| NewChat.ClampHeight | src/app/new-chat/page.tsx:68-76 | the height lies in 30..200, equals the content height inside that range and the nearer bound outside it |
| NewChat.Toggle | src/app/new-chat/page.tsx:37-39 | the result is light or dark, and light exactly when the theme was dark |
| NewChat.ToggleTwice | src/app/new-chat/page.tsx:37-39 | on the two real themes the switch changes the theme, and two presses restore it |
| NewChat.InitialTheme | src/app/new-chat/page.tsx:25-29 | the saved theme when one is saved and non-empty, otherwise light |
| NewChat.Page.constructor | src/app/new-chat/page.tsx:78-80 | the page mounts with empty text, no image, not sending, the saved theme, and the clamped height of the empty text box |
| NewChat.Page.ChangeInput | src/app/new-chat/page.tsx:63-66 | stores the truncated text and the clamped height, and nothing else |
| NewChat.Page.AttachImage | src/app/new-chat/page.tsx:46-48 | attaches the image that was read; the text, the sending flag, the theme and the height are untouched, and the page stays within its bounds |
| NewChat.Page.Send | src/app/new-chat/page.tsx:54-80 | sends exactly when there is visible text or an image, so always when the button is enabled; a send clears both, ends not sending and clamps the height of the emptied box; a refused send changes nothing; the theme is untouched |
| NewChat.Page.ToggleTheme | src/app/new-chat/page.tsx:37-39 | the theme becomes its toggle; the text, the image, the sending flag and the height are untouched |
| NewChat.WhiteSpaceOnlyIsNothingToSend | src/app/new-chat/page.tsx:55 | text made only of white space, with no image, is never sent |
| NewChat.VisibleTextCanBeSent | src/app/new-chat/page.tsx:55 | text with one non-white-space character passes the send guard |
| JsString.Trim | src/app/new-chat/page.tsx:55 | the trimmed text is a slice of the input with white space removed from both ends and none left at either end |
| JsString.BlankIffAllWhiteSpace | src/app/auth/page.tsx:62 | a string trims to empty exactly when every character is white space |
| JsString.DecimalRoundTrip | src/app/training/train/page.tsx:112 | the decimal text of a number reads back as that number |
| JsString.NatToStringInjective | src/app/training/train/page.tsx:112 | different numbers get different decimal texts |
| AuthForm.ValidateEmailMatchesPattern | src/app/auth/page.tsx:24-27 | the check accepts exactly the strings of the email pattern |
| AuthForm.EmailExamples | src/app/auth/page.tsx:25 | "a@b.co" is accepted; "a@b.c", whose top-level domain is one letter, is not |
| AuthForm.ClassesOf | src/app/auth/page.tsx:31-34 | the set holds the kind of every character and only kinds that occur |
| AuthForm.StrongPasswordByClasses | src/app/auth/page.tsx:29-36 | a password is strong exactly when it has 8 or more characters and holds an upper-case letter, a lower-case letter, a digit and a non-word character |
| AuthForm.UnderscoreIsNotSpecial | src/app/auth/page.tsx:30-35 | an underscore is a word character and does not satisfy the special-character rule; "!" does; a password under 8 characters fails even with every kind of character |
| AuthForm.Url | src/app/auth/page.tsx:73 | the address is the auth base followed by "login" exactly for the login endpoint and by "signup" exactly for signup |
| AuthForm.FailureMessage | src/app/auth/page.tsx:91-96 | an error reply always gives a non-empty message, the server's error when it sent a non-empty one; a thrown error gives its own message |
| AuthForm.Decide | src/app/auth/page.tsx:42-73 | a request is sent exactly when the email is valid and, for signup, the name is not blank; the endpoint is login exactly in login mode |
| AuthForm.Form.SwitchMode | src/app/auth/page.tsx:212 | flips between login and signup and keeps the fields |
| AuthForm.Form.Submit | src/app/auth/page.tsx:38-102 | an invalid email, then a blank signup name, stop the request; otherwise one request with the form fields goes to the endpoint, and the outcome is the token or the error message; loading is always cleared |
| AuthForm.LoginIgnoresName | src/app/auth/page.tsx:62 | in login mode the name has no effect on the decision |
| AuthForm.SignupNeedsVisibleName | src/app/auth/page.tsx:62 | with a valid email, signup proceeds exactly when the name has a non-white-space character |
| AuthForm.WeakPasswordStillSent | src/app/auth/page.tsx:52-60 | the password rule is not applied: a valid email and name are sent whatever the password |
| UniqueId.HexDigit | src/components/DashboardSidebar.tsx:72 | the digit is a lower-case hex digit whose value is the number |
| UniqueId.SlotValue | src/components/DashboardSidebar.tsx:71 | a 'y' slot gets the draw's low two bits plus 8 |
| UniqueId.YBits | src/components/DashboardSidebar.tsx:71 | r & 0x3 \| 0x8 equals r mod 4 plus 8 |
| UniqueId.Fill | src/components/DashboardSidebar.tsx:70-73 | the filled string is as long as the template; its characters are stated by `UniqueId.FillAt` |
| UniqueId.FillAt | src/components/DashboardSidebar.tsx:70-73 | a fixed template character is copied, and each slot takes the hex digit of the draw numbered by the slots before it |
| UniqueId.FillFits | src/components/DashboardSidebar.tsx:70-73 | every filled character fits its template position |
| UniqueId.UnfillDigit | src/components/DashboardSidebar.tsx:71-72 | the recovered draw makes the slot show the given digit again |
| UniqueId.FillUnfill | src/components/DashboardSidebar.tsx:70-73 | every string that fits the template is produced by some draws |
| UniqueId.TemplateSlots | src/components/DashboardSidebar.tsx:70 | the template has 36 characters, 31 of them slots |
| UniqueId.GenerateUniqueId | src/components/DashboardSidebar.tsx:69-74 | an id has 36 characters; its layout is stated by `UniqueId.GeneratedIdIsV4` |
| UniqueId.GeneratedIdIsV4 | src/components/DashboardSidebar.tsx:69-74 | every generated id has the version-4 layout |
| UniqueId.V4Layout | src/components/DashboardSidebar.tsx:70-71 | the layout has hyphens at 8, 13, 18 and 23, '4' at 14, one of 8, 9, a, b at 19, and hex digits at every x |
| UniqueId.GeneratedDigitAt | src/components/DashboardSidebar.tsx:70-72 | each x position holds the hex digit of its own draw |
| UniqueId.EveryV4UuidIsGenerated | src/components/DashboardSidebar.tsx:69-74 | every string of that layout is generated by some 31 draws |

## Left out

- Network calls, cookies, routing and toasts are not modelled. The server reply is a parameter of `AuthForm.Form.Submit`. Toasts and navigation appear only as outcomes.
- Timers and awaits run to completion, in order. A click in the middle of an upload or training run is modelled only as the position where Stop is pressed. Interleaved uploads and double clicks are not modelled.
- Randomness is a parameter. This covers the random losses and accuracies, formatted by `toFixed(4)`, and the nibbles drawn by `Math.random() * 16 | 0`.
- TrainPage.Percent: the rounding is exact arithmetic, not IEEE double division. Where floating-point error would flip a value sitting exactly at one half, the two may differ.
- FileReader, localStorage, DOM measurement (`scrollHeight`) and document class toggling are not modelled. Their results are parameters. The new-chat `isUploading` flag only exists while a file is being read, so it is left out with the reader.
- The 1.5 second wait in the new-chat send and the toasts of the pages are not modelled. `NewChat.Page.Send` goes straight from the guard to the cleared state.
- Learning rate, batch size, optimizer and compute device only feed the UI and are not used by any handler, so they are not modelled.
- The `isTraining`-disabled states of the upload buttons and sliders are UI guards outside the handlers. The handlers are modelled unguarded.
- Lengths are counted in Unicode scalar values, not UTF-16 code units. This matters for `slice(0, 1000)` on text outside the Basic Multilingual Plane.
- React's stale closures are not modelled. Each handler sees the state left by the previous one. In the source, the training loop reads `epochs` and `trainingModel` from the render that started it, and these agree here.
- AuthForm.Form.Submit models `handleSubmit` alone. The browser's `required` and `type="email"` checks, which can stop the submit event before the handler runs, are not modelled.
- NewChat.Page.AttachImage models the reader callback of `handleImageUpload`. The page renders no file input that calls that handler, so in the running page the image stays null and only text is ever sent.
- AuthForm.Form.Submit: a thrown value that is not an `Error` falls back to a generic message. That case is not modelled, and every thrown value carries a message.
- The chat pages and the remaining components are not part of this model. This covers the dashboard pages, the conversation pages, the sidebars other than `generateUniqueId`, and `loadData`.
- The versions page treats one version as the active one, but its handlers do not enforce this. Only unique ids and the disabled row buttons keep it true. The model proves the invariant under exactly those conditions (`ModelVersions.ClickActivateKeepsInvariant`, `ModelVersions.ClickDeleteKeepsInvariant`).
