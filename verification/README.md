# Model of the access terminal

This project models the logic of a Qt/C++ face, fingerprint and RFID access terminal and proves
properties of it. Seven parts of the program are modelled.

- **Exception macros** (`Except.dfy`, `ExceptFrames.dfy`, `ExceptMachine.dfy`). A statement
  language with TRY, EXCEPT, ELSE, FINALLY and RAISE, its structured meaning, the C code the macros
  of `except.h` expand to, and a machine with `Except_stack`, saved continuations and longjmp. The
  expansion preserves meaning, and the frame stack is always the chain of the running bodies.
- **The person table and its cache** (`PersonTable.dfy`, `PersonRuns.dfy`, `PersonAgreement.dfy`,
  `PersonFeatures.dfy`, `PersonCards.dfy`, `PersonLookups.dfy`, `PersonEffects.dfy`,
  `PersonStored.dfy`, `PersonExamples.dfy`, `PersonStore.dfy`, `FingerEnrolment.dfy`). SQL statements are functions on a
  sequence of rows, the cache is a sequence of persons, and each statement may fail. Four things are
  followed through every operation and every run, each with the exact condition under which it
  survives: the agreement of table and cache, with repeated uuids and idcards allowed; a stored face
  feature; the cards of a person; and the distinctness of finger ids, also over presses of the two
  buttons of the enrolment form, which hold an id in between.
- **The configuration protocol** (`ConfigSync.dfy`, `ConfigEffects.dfy`, `ConfigManager.dfy`,
  `Timestamps.dfy`, `Calendar.dfy`).
  Heartbeats, heartbeat responses, config requests and config responses as a transition system in
  which messages may be lost, replayed or rejected. The pending table is proved to say exactly what
  the log of requests and syncs says, and syncing against a fixed manifest is proved to converge.
- **Card and QR code lists** (`CardEntries.dfy`, `CardNumbers.dfy`, `CardSync.dfy`). The text of the
  entries, down to the number that a card stands for, and the
  folds of the two lists into the table, each proved against a comprehension over the entries.
- **The fingerprint sensor** (`SensorPackets.dfy`, `Enrolment.dfy`, `EnrolmentSteps.dfy`, `SensorLine.dfy`,
  `FingerprintManager.dfy`). Packets, responses parsed in place, enrolment against a sensor that may
  answer anything, the serial line as a stream of bytes in which unread answers stay, the recovery
  of over-read template bytes, and the chunked upload.
- **Base64** (`Base64.dfy`), after section 4 of RFC 4648: the two loops refine functions for which
  the round trips are proved.
- **The page strip** (`PageNavigator.dfy`) and **the slots of tracked faces** (`FaceSlots.dfy`).

Each class has the fields of the original object, and its methods change them step by step; their
`ensures` clauses tie the new state to a function of the old one, and the lemmas are about those
functions. Parameters named `ok`, `accepted`, `deleted` or `cleared` say whether an SQL statement or
a publish succeeds; `now`, `sent` and `generated` stand for clocks and generated ids.

## Where the code and its promises differ

- The comment at `MqttHeartbeatManager.cpp:1255-1256` says that entries without a response are
  expired so that sync is not blocked for good. The check runs only inside a request, and a heartbeat
  response sends one only for a file that is not pending. The boot request names all files: if its
  response is lost, no heartbeat response, however late, and no new connection gets another request
  out (`PendingTable.BootRequestIsTheOnlyOne`, `PendingTable.LockedOutUntilResponse`). A single lost
  file is asked for again once a request for another one goes out
  (`PendingTable.FreedAndRequestedAgain`).
- Requests compare times as strings, three of the syncs compare epochs. With different zone offsets
  the orders differ (`Timestamps.OrdersDisagreeAcrossZones`); the sync then reports success without
  applying anything, and the file stays outdated (`SyncConvergence.SyncExact`).
- A delete whose statement fails still takes the person out of the cache, and
  `StoreUserWithoutFaceData` grows the cache even when its statement fails or the person is there
  already (`PersonAgreement.AgreementWhileUnique`). An update may give a person the idcard of another
  one. That call leaves table and cache in agreement, but the next register under the idcard does
  not: it writes all rows of the idcard and one cached person
  (`PersonAgreement.RegisterUnderSharedIdcard`, `PersonExamples.SharedIdcardBreaksAgreement`).
- The comment at `RegisteredFacesDB.cpp:1148` promises that an existing feature is preserved. The
  register looks for it in the first row of the idcard and writes it into all of them, so with a
  shared idcard a feature is erased by a call that brings none
  (`PersonExamples.SharedIdcardErasesFeature`); `PersonFeatures.FeatureExact` says when.
- The vendor check does not read the answer to its command, and nothing discards it before STORE is
  read. With a sensor that acknowledges it, an enrolment reports the outcome of REG_MODEL as that of
  STORE (`EnrolmentOnLine.StoreIsNotHeard`, with a run in `EnrolmentOnLine.RefusedStoreIsReported`).
- The register button of the form writes the finger id even if the print was not stored, and then
  keeps the finger; the next person in the form gets the same id
  (`PersonExamples.HalfFailedRegistration`). Ids that getFingerId would truncate are never written by
  enrolment (`FingerEnrolment.FitExact`); when the allocator passes 65535 a finger is enrolled under
  id 0 (`FingerEnrolment.CapturedExact`).
- The card sync empties the cached cards and writes the new ones only into the table. An update
  or register that names no card then writes the empty cached one over them
  (`PersonEffects.UpdateRevertsCards`, `PersonEffects.RegisterRevertsCards`); `PersonCards.CardsOnEveryRun`
  says how long synced cards last.
- A register without a feature keeps the stored feature but writes the size of its empty argument
  (`PersonLookups.FeatureSizeExact`). A person without a finger reads as 0 or as 65535, depending on
  whether the cache was loaded since the registration (`PersonLookups.NoFingerReadsDiffer`).
- The test for the card "00000000" comes after the conversion to decimal and never holds
  (`CardEntries.ZeroTestIsDead`, `CardEntries.ZeroCardIsAssigned`).
- The list of live faces holds tracker ids, the slots hold tracker ids plus one. The list protects
  the slots it names, but those are not the slots of the live faces: two faces that appear in an
  empty table get the same slot (`FaceSlots.SecondFaceEvictsFirst`,
  `FaceSlots.SpacedFacesShareSlotZero`). The fallback to slot 0 is dead, because the frame loop never
  writes the last entry of the list (`FaceSlots.NeverAllListed`).

## Model

| member | source | states |
|---|---|---|
| Except.ExpansionPreservesMeaning | FaceApp_baidu/except.h:28-87 | For every program and every choice of branches, the expanded macros halt without following a bad pointer, with the events of the structured meaning; they end normally with an empty frame stack, or abort with the exception and the site of its first raise, exactly when the structured meaning does |
| Except.Simulates | FaceApp_baidu/except.h:60-87 | The same for any statement in any context: from every continuation, memory and frame stack, and the locals of all older blocks stay as they were |
| Except.SimulatesHandlers | FaceApp_baidu/except.h:68-76 | The chain of handler tests runs the first clause that names the exception, or the ELSE, and marks the block as handled; without one it changes nothing |
| Except.SimulatesEpilogue | FaceApp_baidu/except.h:78-87 | FINALLY and END_TRY run the action with the frame off the stack, and raise a still pending exception again unless the action raised one |
| Except.FinallyRunsOnce | FaceApp_baidu/except.h:78-87 | On the machine, a FINALLY action that begins with a mark runs exactly once, right behind the block and the handler, after a normal, a handled and an unhandled body and even if it raises itself, and not at all when a handler of its own block raises |
| Except.FinallyRunsOnceAnywhere | FaceApp_baidu/except.h:78-87 | The same for a block in any context: from every continuation, memory and frame stack the machine gets through it with the events of its meaning, in which the mark stands once in that place |
| Except.FirstClauseRuns | FaceApp_baidu/except.h:68-76 | The clause that runs is the first one that names the exception or is the ELSE; without one none runs |
| Except.BlockOutcome | FaceApp_baidu/except.h:60-87 | How a block ends on the machine, with or without clauses and FINALLY: with the exception of a raising handler, else that of the action, else that of the body with its original site if no clause took it, else normally, with the events of body, handler and action in this order |
| ExceptFrames.StepKeepsInv | FaceApp_baidu/except.h:28-87 | Every statement of the machine keeps the frame-stack invariant, and none follows a bad pointer |
| ExceptFrames.FrameStackIsRunningBodies | FaceApp_baidu/except.h:47-48 | In every reachable state the links from Except_stack are exactly the TRY blocks whose bodies are still running, innermost first |
| ExceptFrames.RaiseReachesNearest | FaceApp_baidu/except.h:28-56 | In every reachable state a RAISE, and the RERAISE of END_TRY with the exception and site of its block, aborts if no body is running, and otherwise restarts the innermost running block behind its setjmp with that exception in its frame, leaving the other running bodies on the stack |
| ExceptMachine.Machine.ExceptRaise | FaceApp_baidu/except.h:28-49 | Fills the frame on top, unlinks it and jumps to it; aborts on an empty stack |
| ExceptMachine.Machine.EnterTry | FaceApp_baidu/except.h:60-66 | Links the new frame in front of the old stack and saves the continuation behind setjmp |
| ExceptMachine.RunProgram | FaceApp_baidu/except.h:28-87 | Executing the expansion statement by statement gives the outcome and the events of the structured meaning |
| Collections.First | FaceApp_baidu/DB/RegisteredFacesDB.cpp:2705-2728 | The position at which a search loop over mPersons stops: the first match, with none before it |
| PersonTable.MaxFingerId | FaceApp_baidu/DB/RegisteredFacesDB.cpp:2730-2741 | No row has a greater finger id, and a positive result is the id of some row |
| PersonRuns.RegisterExact | FaceApp_baidu/DB/RegisteredFacesDB.cpp:1092-1360 | From agreement with unique uuids, idcards and keys, a successful register leaves all of that exactly when its idcard is in the table or its uuid is not |
| PersonRuns.UpdateExact | FaceApp_baidu/DB/RegisteredFacesDB.cpp:1754-1909 | A successful update leaves all of that exactly when it brings no idcard or one that no other row holds; only uniqueness is at stake |
| PersonRuns.UpdateDirectlyExact | FaceApp_baidu/DB/RegisteredFacesDB.cpp:1912-2008 | A successful direct update leaves all of that exactly when it hits no row or its idcard is held by no other row; only uniqueness is at stake |
| PersonRuns.FieldUpdatesKeepInv | FaceApp_baidu/DB/RegisteredFacesDB.cpp:2226-2267 | Updates of the feature, the extra columns and the fingerprint always keep the agreement |
| PersonRuns.FingerUpdatesKeepInv | FaceApp_baidu/DB/RegisteredFacesDB.cpp:2705-2844 | Writing a finger id, and clearing all finger ids or all cards, keep the agreement |
| PersonRuns.DeletesExact | FaceApp_baidu/DB/RegisteredFacesDB.cpp:2401-2422 | A successful delete by uuid keeps the agreement; one by name and time does so exactly when it hits at most one row |
| PersonRuns.FailedDeletesExact | FaceApp_baidu/DB/RegisteredFacesDB.cpp:2099-2122 | A delete whose statement fails keeps the agreement exactly when there was nothing to delete |
| PersonRuns.StoreExact | FaceApp_baidu/DB/RegisteredFacesDB.cpp:1363-1526 | StoreUserWithoutFaceData keeps the agreement exactly when its statement succeeds and neither idcard nor uuid is in the table |
| PersonRuns.InvariantExact | FaceApp_baidu/DB/RegisteredFacesDB.cpp:1092-2888 | Each operation, successful or not, leaves agreement together with unique uuids, idcards and keys exactly when the condition of that operation holds |
| PersonRuns.InvariantOnEveryRun | FaceApp_baidu/DB/RegisteredFacesDB.cpp:1092-2888 | Agreement and uniqueness hold all along a run exactly when every call of it meets its condition |
| PersonRuns.DeleteLeaves | FaceApp_baidu/DB/RegisteredFacesDB.cpp:2401-2422 | A DELETE leaves exactly the rows that its WHERE does not match, in their order |
| PersonAgreement.AgreementExact | FaceApp_baidu/DB/RegisteredFacesDB.cpp:1092-2888 | From any state in which table and cache agree, with uuids and idcards repeated at will, an operation leaves them in agreement exactly under its condition: an UPDATE that hits several rows needs the cached persons of all but the first to carry already what is written; a delete may hit one row, a failed one none; a store must be new and succeed |
| PersonAgreement.AgreementWhileUnique | FaceApp_baidu/DB/RegisteredFacesDB.cpp:1092-2888 | While uuids and idcards are unique only deletes, the wipe and StoreUserWithoutFaceData can end the agreement, exactly under the stated conditions; no register and no update does |
| PersonAgreement.RegisterUnderSharedIdcard | FaceApp_baidu/DB/RegisteredFacesDB.cpp:1246-1342 | A register under an idcard that two rows hold ends the agreement as soon as the clock has moved on |
| PersonAgreement.AgreementOnEveryRun | FaceApp_baidu/DB/RegisteredFacesDB.cpp:1092-2888 | Table and cache agree all along a run, with any statements failing, exactly when every call of it meets its condition |
| PersonAgreement.LoadedAgrees | FaceApp_baidu/DB/RegisteredFacesDB.cpp:2135-2209 | The loaded cache agrees with the table exactly when every personid is positive |
| PersonFeatures.FeatureExact | FaceApp_baidu/DB/RegisteredFacesDB.cpp:1127-1153 | From any state, whatever the cache holds, a person with a feature has one after the call exactly when the statement fails or spares the row: a register does if the idcard differs, a feature is given, or the first row of the idcard has one; an update if the uuid differs or the first cached person yields one; deletes if they do not name the row |
| PersonFeatures.FeatureOnEveryRun | FaceApp_baidu/DB/RegisteredFacesDB.cpp:1814-1836 | A person keeps a feature all along a run exactly when every successful call of it spares the row |
| PersonFeatures.OnlyAskedIsErased | FaceApp_baidu/DB/RegisteredFacesDB.cpp:1940-1956 | While uuids and idcards are unique, a call spares every row with a feature unless it asks for the removal of that feature or row |
| PersonFeatures.FeatureNeverErased | FaceApp_baidu/DB/RegisteredFacesDB.cpp:1148-1153 | Over a run that keeps uuids and idcards unique, a stored feature stays until a call asks for its removal |
| PersonExamples.SharedIdcardErasesFeature | FaceApp_baidu/DB/RegisteredFacesDB.cpp:1129-1153 | Two successful calls, an update to a shared idcard and a register without a feature, after which a stored feature is gone |
| PersonEffects.OthersUntouched | FaceApp_baidu/DB/RegisteredFacesDB.cpp:1092-2888 | No operation changes the row of a person it is not about |
| PersonEffects.RegisterStores | FaceApp_baidu/DB/RegisteredFacesDB.cpp:1147-1266 | Registering a known idcard stores what was given in its row, keeps what was not given though the kept values come from the cache, and leaves uuid, key, fingers, QR code and timestamps |
| PersonEffects.UpdateStores | FaceApp_baidu/DB/RegisteredFacesDB.cpp:1795-1881 | An update stores what was given in the row of its uuid and keeps the rest, except the personal module id, which is always stored |
| PersonEffects.UpdateRevertsCards | FaceApp_baidu/DB/RegisteredFacesDB.cpp:1796-1869 | An update without a card leaves the cards of the row exactly when the cache has the same; after a card sync it empties them |
| PersonEffects.RegisterRevertsCards | FaceApp_baidu/DB/RegisteredFacesDB.cpp:1160-1266 | A register of a known idcard without a card does the same |
| PersonStored.LoadedExact | FaceApp_baidu/DB/RegisteredFacesDB.cpp:2135-2209 | Which columns a loaded person takes from its row, and what it gets for no sex, no card and a key below 1; QR code and timestamps stay empty |
| PersonStored.RegisterStoresNew | FaceApp_baidu/DB/RegisteredFacesDB.cpp:1092-1360 | A register of an idcard that is not in the table appends one row and one person: the given texts and feature, the defaults for sex, card and image, the given or generated uuid, the next key, finger ids -1 and 0, no QR code and empty timestamps |
| PersonStored.RegisterStoresKnown | FaceApp_baidu/DB/RegisteredFacesDB.cpp:1092-1360 | From any state, a register of somebody on both sides composes the first cached person anew from given and cached values, with feature, uuid and key of the first row, and assigns that to all rows of the idcard |
| PersonStored.RegisterStoresUncached | FaceApp_baidu/DB/RegisteredFacesDB.cpp:1147-1300 | Somebody in the table whom the cache does not know loses what the register does not give, except feature, uuid and key |
| PersonStored.RegisterStoresUnlisted | FaceApp_baidu/DB/RegisteredFacesDB.cpp:1147-1342 | Somebody whom only the cache knows gets a row, with the cached values for what is not given, and a second entry in the cache |
| PersonStored.UpdateStoresKnown | FaceApp_baidu/DB/RegisteredFacesDB.cpp:1754-1909 | From any state, column by column what an update leaves in the first cached person of the uuid and in all rows of it |
| PersonStored.DirectStores | FaceApp_baidu/DB/RegisteredFacesDB.cpp:1912-2008 | The direct update stores its texts empty or not, and without a feature that of the first row, in all rows of the uuid and the first cached person |
| PersonStored.FeatureStores | FaceApp_baidu/DB/RegisteredFacesDB.cpp:2424-2517 | The face update stores feature, size and a saved image likewise, and nothing for somebody not cached or cached without an idcard |
| PersonStored.ColumnsStore | FaceApp_baidu/DB/RegisteredFacesDB.cpp:2226-2267 | The four extra columns are stored likewise, each in its own column |
| PersonStored.FingerprintStores | FaceApp_baidu/DB/RegisteredFacesDB.cpp:2557-2704 | A print, empty or not, is stored likewise, and nothing for an empty uuid |
| PersonStored.FingerIdStores | FaceApp_baidu/DB/RegisteredFacesDB.cpp:2705-2728 | A finger id is stored likewise |
| PersonStored.ClearsReachAll | FaceApp_baidu/DB/RegisteredFacesDB.cpp:2796-2844 | The two bulk clears set every finger id to 0, and every card to NULL in the table and to empty in the cache |
| PersonStored.StoreStoresNew | FaceApp_baidu/DB/RegisteredFacesDB.cpp:1363-1526 | StoreUserWithoutFaceData of somebody the cache does not know appends row and person as a register does; if the statement fails, only the person |
| PersonStored.StoreStoresKnown | FaceApp_baidu/DB/RegisteredFacesDB.cpp:1363-1526 | For somebody the cache knows it appends another person, with feature, uuid and key of the first, and writes the given texts, empty or not, over all rows of that uuid |
| PersonStored.DeletesUncache | FaceApp_baidu/DB/RegisteredFacesDB.cpp:2099-2122 | A delete takes its first match out of the cache whether or not it succeeds |
| PersonStored.DeleteTakes | FaceApp_baidu/DB/RegisteredFacesDB.cpp:2401-2422 | A delete that succeeds takes away exactly the rows it names |
| PersonCards.CardsExact | FaceApp_baidu/DB/RegisteredFacesDB.cpp:1092-2888 | From any state, whatever the cache holds, a person has the same cards after the call exactly when the statement fails or the call keeps them: a register, update or store of somebody else, or one that writes the same cards, given or cached; a clear only of NULL; no delete of the row |
| PersonCards.CardsOnEveryRun | FaceApp_baidu/DB/RegisteredFacesDB.cpp:1092-2888 | The cards that a sync left in a row stay there all along a run exactly when every successful call of it keeps them |
| PersonLookups.CacheReadsAreTableReads | FaceApp_baidu/DB/RegisteredFacesDB.cpp:331-363 | While table and cache agree, the cache-first lookups of uuid and fingerprint give what the table gives, repeated uuids included |
| PersonLookups.FingerIdReadExact | FaceApp_baidu/DB/RegisteredFacesDB.cpp:2772-2794 | That of the finger id does so exactly when the uuid has no row, its id is positive, or the ids on the two sides are equal modulo 65536 |
| PersonLookups.CacheComesFirst | FaceApp_baidu/DB/RegisteredFacesDB.cpp:331-363 | In any state the first cached person of the key decides, and the first row when nobody is cached |
| PersonLookups.NoFingerReadsDiffer | FaceApp_baidu/DB/RegisteredFacesDB.cpp:2772-2794 | Someone registered without a finger has finger id 0 until the cache is reloaded, and 65535 after that |
| PersonLookups.SetFingerIdExact | FaceApp_baidu/DB/RegisteredFacesDB.cpp:2705-2728 | From any state with distinct positive finger ids, writing an id keeps them distinct exactly when it is not positive, or the uuid has no row, or it has one and nobody else has the id |
| PersonLookups.FingersExact | FaceApp_baidu/DB/RegisteredFacesDB.cpp:2705-2821 | From any state with distinct positive finger ids, whatever the cache holds, each database operation keeps them distinct exactly when it fails, or does not write an id that is taken or one for an uuid that two rows have |
| PersonLookups.UuidsExact | FaceApp_baidu/DB/RegisteredFacesDB.cpp:1201-1212 | Uuids stay unique exactly when no register or store inserts one that is in the table |
| PersonLookups.FingersDistinctOnEveryRun | FaceApp_baidu/DB/RegisteredFacesDB.cpp:2705-2821 | Positive finger ids are distinct all along a run of database operations, through clears, deletes and failures, exactly when every call of it meets that condition |
| FingerEnrolment.PackedBack | FaceApp_baidu/SettingFuncFrms/ManagingPeopleFrms/AddUserFrm.cpp:939-953 | The held bytes give back the id, the size of the backup and the backup |
| FingerEnrolment.CaptureHolds | FaceApp_baidu/SettingFuncFrms/ManagingPeopleFrms/AddUserFrm.cpp:842-953 | A press of the capture button holds the backup under the next id of the allocator, modulo 65536, if the sensor enrolled the finger, and else nothing |
| FingerEnrolment.RegisterFingerStores | FaceApp_baidu/SettingFuncFrms/ManagingPeopleFrms/AddUserFrm.cpp:1104-1122 | A press of the register button stores the held bytes as print and the held id in the row of the person, each if its statement succeeds, and lets go of the finger exactly if both did |
| FingerEnrolment.NothingToRegister | FaceApp_baidu/SettingFuncFrms/ManagingPeopleFrms/AddUserFrm.cpp:1019-1103 | Without a held finger, an employee id or a person for it the press changes nothing |
| FingerEnrolment.CapturedExact | FaceApp_baidu/SettingFuncFrms/ManagingPeopleFrms/AddUserFrm.cpp:883-886 | A capture gives an id above all others exactly while the greatest is below 65535; it gives 0 exactly when the next one is a multiple of 65536; where all ids fit 16 bits it never gives one that somebody has |
| FingerEnrolment.PressExact | FaceApp_baidu/SettingFuncFrms/ManagingPeopleFrms/AddUserFrm.cpp:1104-1118 | From any state, a press of the register button keeps positive finger ids distinct exactly when it writes no id or one that is fresh for the person at the time of writing |
| FingerEnrolment.DistinctOnEveryPressRun | FaceApp_baidu/SettingFuncFrms/ManagingPeopleFrms/AddUserFrm.cpp:842-1235 | Finger ids are distinct all along a run of captures, registrations, resets and database operations exactly when every press or operation that writes an id writes one that is then fresh |
| FingerEnrolment.FreshExact | FaceApp_baidu/DB/RegisteredFacesDB.cpp:2705-2728 | An id is fresh for a person with a row exactly when it is no finger id, or the person has one row and nobody else has the id |
| FingerEnrolment.HeldStaysFresh | FaceApp_baidu/SettingFuncFrms/ManagingPeopleFrms/AddUserFrm.cpp:1114-1118 | A held id that nobody else has stays so over any run in which it is not given to somebody else |
| FingerEnrolment.HeldFreshExact | FaceApp_baidu/SettingFuncFrms/ManagingPeopleFrms/AddUserFrm.cpp:1114-1118 | Over a run that frees no row with the id, nobody else has it at the end exactly when no press or operation gave it to somebody else |
| FingerEnrolment.FitExact | FaceApp_baidu/SettingFuncFrms/ManagingPeopleFrms/AddUserFrm.cpp:1061-1066 | Ids that fit 16 bits go on fitting after every press and operation, except a raw write of a greater id: enrolment never writes one |
| FingerEnrolment.SoundOnEveryRun | FaceApp_baidu/SettingFuncFrms/ManagingPeopleFrms/AddUserFrm.cpp:842-1235 | While no registration stores the id without the print, no raw id is written and no uuid is inserted twice, every run keeps ids distinct and within 16 bits and the held id nobody's |
| FingerEnrolment.EnrolledIsFound | FaceApp_baidu/DB/RegisteredFacesDB.cpp:2744-2794 | In such a state with table and cache in agreement, everybody with a finger is found by the id that getFingerId gives |
| FingerEnrolment.HalfFailedThenAnother | FaceApp_baidu/SettingFuncFrms/ManagingPeopleFrms/AddUserFrm.cpp:1115-1122 | From any state with a positive held id: a registration that stores the id but not the print, and then one of somebody else, leave two people with one finger id |
| PersonExamples.HalfFailedRegistration | FaceApp_baidu/SettingFuncFrms/ManagingPeopleFrms/AddUserFrm.cpp:1115-1122 | Such a run from a state in which everything is in order, with the only id from the allocator |
| AddUserForm.AddUserFrm.CaptureFingerButton | FaceApp_baidu/SettingFuncFrms/ManagingPeopleFrms/AddUserFrm.cpp:842-953 | Takes the next id, converted to 16 bits, and holds it with the backup if the sensor enrolled the finger, else holds nothing |
| AddUserForm.AddUserFrm.RegFingerButton | FaceApp_baidu/SettingFuncFrms/ManagingPeopleFrms/AddUserFrm.cpp:1019-1235 | Writes the held print and then the held id to the person of the employee id, and lets go of the finger only if both were stored |
| PersonLookups.FingerFindsItsOwner | FaceApp_baidu/DB/RegisteredFacesDB.cpp:2744-2794 | The person found under the finger id of u is u exactly when the id is below 65536, for every u with a positive id |
| PersonLookups.FeatureSizeExact | FaceApp_baidu/DB/RegisteredFacesDB.cpp:1092-1360 | After a register the featuresize column is the size of the stored feature exactly when the call brought a feature or none was stored |
| PersonExamples.SharedIdcardBreaksAgreement | FaceApp_baidu/DB/RegisteredFacesDB.cpp:1754-1909 | Two successful calls after which a row and its cache entry carry different names |
| PersonStore.RegisteredFaces.constructor | FaceApp_baidu/DB/RegisteredFacesDB.cpp:2135-2209 | Loading fills the cache row by row, and agrees with a table that has unique uuids, idcards and keys |
| PersonStore.RegisteredFaces.RegPersonToDBAndRAM | FaceApp_baidu/DB/RegisteredFacesDB.cpp:1092-1360 | Changes table and cache as the specification of register says, or nothing when the statement fails |
| PersonStore.RegisteredFaces.UpdatePersonToDBAndRAM | FaceApp_baidu/DB/RegisteredFacesDB.cpp:1754-1909 | The same for update, with each of its result codes |
| PersonStore.RegisteredFaces.UpdatePersonDirectly | FaceApp_baidu/DB/RegisteredFacesDB.cpp:1912-2008 | The same for the direct update |
| PersonStore.RegisteredFaces.UpdatePersonFaceFeature | FaceApp_baidu/DB/RegisteredFacesDB.cpp:2424-2517 | The same for the face update, which gives up on a person without an idcard in the cache |
| PersonStore.RegisteredFaces.UpdatePersonFingerprint | FaceApp_baidu/DB/RegisteredFacesDB.cpp:2557-2619 | Succeeds exactly for a nonempty print of a uuid in the table, and else changes nothing |
| PersonStore.RegisteredFaces.DeletePersonFingerprint | FaceApp_baidu/DB/RegisteredFacesDB.cpp:2669-2704 | Empties the print on both sides |
| PersonStore.RegisteredFaces.UpdatePersonFingerId | FaceApp_baidu/DB/RegisteredFacesDB.cpp:2705-2728 | Writes the finger id on both sides |
| PersonStore.RegisteredFaces.ClearFingerprint | FaceApp_baidu/DB/RegisteredFacesDB.cpp:2759-2769 | Is a run of the two calls, the second whatever became of the first |
| PersonStore.RegisteredFaces.ClearAllFingerIds | FaceApp_baidu/DB/RegisteredFacesDB.cpp:2796-2821 | Sets every finger id on both sides to 0 |
| PersonStore.RegisteredFaces.ClearAllRfidCards | FaceApp_baidu/DB/RegisteredFacesDB.cpp:2822-2844 | Clears every card on both sides |
| PersonStore.RegisteredFaces.DelPersonByUuid | FaceApp_baidu/DB/RegisteredFacesDB.cpp:2401-2422 | Deletes the rows if the statement succeeds, and the first cache entry in any case |
| PersonStore.RegisteredFaces.DelPersonDBInfo | FaceApp_baidu/DB/RegisteredFacesDB.cpp:2099-2122 | The same by name and creation time |
| PersonStore.RegisteredFaces.StoreUserWithoutFaceData | FaceApp_baidu/DB/RegisteredFacesDB.cpp:1363-1526 | Appends to the cache in any case and inserts or updates the row if the statement succeeds |
| PersonStore.RegisteredFaces.FindUuidByEmployeeId | FaceApp_baidu/DB/RegisteredFacesDB.cpp:331-363 | Looks in the cache first; in an agreeing state the result is that of the query |
| PersonStore.RegisteredFaces.GetPersonFingerprint | FaceApp_baidu/DB/RegisteredFacesDB.cpp:2622-2666 | The same for the fingerprint |
| PersonStore.RegisteredFaces.GetFingerId | FaceApp_baidu/DB/RegisteredFacesDB.cpp:2772-2794 | Looks in the cache first and gives a 16-bit id |
| PersonStore.RegisteredFaces.GetPersonByFingerId | FaceApp_baidu/DB/RegisteredFacesDB.cpp:2744-2756 | Finds the owner of a positive finger id while table and cache agree and ids are distinct |
| PersonStore.RegisteredFaces.GetNextAvailableFingerId | FaceApp_baidu/DB/RegisteredFacesDB.cpp:2730-2741 | A positive id above that of every row |
| ConfigSync.Changed | FaceApp_baidu/MqttHeartbeatManager.cpp:937-1096 | A file is requested exactly when it is listed, newer on the server and not pending |
| PendingTable.PublishFaithful | FaceApp_baidu/MqttHeartbeatManager.cpp:1243-1324 | A request, accepted or rejected, keeps list and expiry map in step with the log |
| PendingTable.PendingTableOnEveryRun | FaceApp_baidu/MqttHeartbeatManager.cpp:1243-1324 | On every run the pending list has no duplicates, and a file is pending, with the time in its expiry entry, exactly when the log of requests and syncs says so |
| PendingTable.PendingWasAsked | FaceApp_baidu/MqttHeartbeatManager.cpp:1272-1279 | A pending file was named in an accepted request sent at its expiry time, and since then was neither synced, nor named in a rejected request, nor over 60 s old at a later request |
| PendingTable.NothingStaleAfterRequest | FaceApp_baidu/MqttHeartbeatManager.cpp:1255-1270 | After an accepted request no pending entry is more than 60 s older than the clock of that call |
| PendingTable.ResponseRequestsExactly | FaceApp_baidu/MqttHeartbeatManager.cpp:1431-1443 | A heartbeat response sends a request exactly when connected and some newer file is not pending, naming exactly those files; otherwise it changes nothing |
| PendingTable.FreedAndRequestedAgain | FaceApp_baidu/MqttHeartbeatManager.cpp:1255-1279 | A request more than 60 s after f became pending, not naming f, frees f, and the next response that lists f as newer asks for it again |
| PendingTable.LostRequestNeverRetried | FaceApp_baidu/MqttHeartbeatManager.cpp:1255-1279 | Any number of heartbeat responses, however late, changes nothing exactly when the device is not connected or each of them lists as newer only files that are pending |
| PendingTable.LockedOutUntilResponse | FaceApp_baidu/MqttHeartbeatManager.cpp:1230-1238 | Once all files are pending after the boot request, a run changes nothing but the connection exactly when no config response in it brings a file |
| PendingTable.BootRequestIsTheOnlyOne | FaceApp_baidu/MqttHeartbeatManager.cpp:1189-1324 | From the start: after connecting and a first heartbeat whose request is accepted, no run without a config response ever sends another request, and every file stays pending |
| SyncConvergence.SyncExact | FaceApp_baidu/MqttHeartbeatManager.cpp:1596-1664 | Syncing an outdated file makes it current exactly when the server gives it a time and the epoch guard does not skip it |
| SyncConvergence.SyncTakesOne | FaceApp_baidu/MqttHeartbeatManager.cpp:1596-1664 | One sync takes off the outdated files exactly the file whose time it stores, if it stores one; an empty time makes that file outdated |
| SyncConvergence.Converges | FaceApp_baidu/MqttHeartbeatManager.cpp:1388-1664 | Against a fixed manifest with matching responses, over every run the outdated files become fewer by exactly the number of syncs that applied one, less those that stored an empty time for a current one; without empty times none becomes outdated |
| SyncConvergence.QuietAtRest | FaceApp_baidu/MqttHeartbeatManager.cpp:1388-1456 | Once nothing is outdated, nothing is after any further run exactly when each empty time stored on the way has been made up for, in particular when none is stored; and then no heartbeat response changes anything |
| ConfigEffects.SyncStores | FaceApp_baidu/MqttHeartbeatManager.cpp:1596-1664 | What one item changes: a complete, available, downloaded, known file leaves list and map, and its time is stored, whatever time was there, unless the file is one of the three guarded ones and no later by the epochs |
| ConfigEffects.NewerAfterSync | FaceApp_baidu/MqttHeartbeatManager.cpp:1596-1664 | Once a time is stored, the file is requested from a later manifest exactly if that one has a greater time or the stored one is empty; all other files as before |
| ConfigEffects.LastStoredTime | FaceApp_baidu/MqttHeartbeatManager.cpp:1562-1594 | After a config response the time of a file is that of the last item for it that was stored when its turn came, else the old one |
| ConfigEffects.PublishExact | FaceApp_baidu/MqttHeartbeatManager.cpp:1243-1324 | What a request leaves: entries over 60 s old are gone, the others stay in place, the new files come behind them with the time of sending; a rejected one leaves none of its files on the list but their times in the map |
| ConfigEffects.ChangedInOrder | FaceApp_baidu/MqttHeartbeatManager.cpp:937-1096 | The requested files come in the order in which they are examined, each once |
| ConfigEffects.OneBootRequest | FaceApp_baidu/MqttHeartbeatManager.cpp:1189-1238 | Of any number of heartbeats only the first that is sent asks for files, for all of them and once, whether or not the broker accepts |
| ConfigEffects.LessExact | FaceApp_baidu/MqttHeartbeatManager.cpp:958 | The order of times as strings: same up to some place, where the one ends or has the smaller character |
| ConfigManager.HeartbeatManager.GetChangedJsonFiles | FaceApp_baidu/MqttHeartbeatManager.cpp:937-1096 | The files examined one after the other give the specified list in its order |
| ConfigManager.HeartbeatManager.ClearStale | FaceApp_baidu/MqttHeartbeatManager.cpp:1255-1270 | Takes exactly the entries older than 60 s out of the map and out of the list |
| ConfigManager.HeartbeatManager.PublishConfigRequest | FaceApp_baidu/MqttHeartbeatManager.cpp:1243-1324 | Purge, marking, log and, for a rejected request, unmarking, as specified; returns whether a request was accepted |
| ConfigManager.HeartbeatManager.PublishHeartbeat | FaceApp_baidu/MqttHeartbeatManager.cpp:1189-1241 | The first heartbeat that is sent requests all files, later ones none |
| ConfigManager.HeartbeatManager.HandleHeartbeatResponse | FaceApp_baidu/MqttHeartbeatManager.cpp:1388-1456 | Requests the changed files and keeps the table in step with the log |
| ConfigManager.HeartbeatManager.SyncSpecificJson | FaceApp_baidu/MqttHeartbeatManager.cpp:1596-1664 | Takes a processed file off list and map and stores its time unless the epoch guard skips it |
| ConfigManager.HeartbeatManager.HandleConfigResponse | FaceApp_baidu/MqttHeartbeatManager.cpp:1540-1594 | Handles the files of a response one after the other as specified |
| Timestamps.StringsAsClocks | FaceApp_baidu/MqttHeartbeatManager.cpp:1494-1498 | Date-times compare as strings as their clock readings do, and equal readings compare by what follows |
| Timestamps.OrdersAgree | FaceApp_baidu/MqttHeartbeatManager.cpp:187-203 | Of two times with the same offset, the greater string is the later instant |
| Timestamps.OrdersExact | FaceApp_baidu/MqttHeartbeatManager.cpp:958 | For any two times and offsets: when the strings, when the instants are ordered, and that the two orders agree exactly when the lead of the clock compares to the lead of the offset accordingly |
| Calendar.EpochExact | FaceApp_baidu/MqttHeartbeatManager.cpp:187-203 | A time of the modelled form is readable exactly if it is on the calendar and the clock, and stands for the seconds since 1970 by the closed form of the Gregorian calendar, less its offset; any other text gives 0 |
| Timestamps.OrdersDisagreeAcrossZones | FaceApp_baidu/MqttHeartbeatManager.cpp:958 | Two times with different offsets whose strings and instants are ordered differently |
| Timestamps.NewerIsApplied | FaceApp_baidu/MqttHeartbeatManager.cpp:1854-1860 | With one offset, what a heartbeat response calls newer is never skipped by the sync |
| Timestamps.NewerIsAppliedExact | FaceApp_baidu/MqttHeartbeatManager.cpp:1854-1860 | With any offsets, it is skipped exactly when the clock of the new time is not further ahead than its offset |
| CardEntries.ZeroTestIsDead | FaceApp_baidu/MqttHeartbeatManager.cpp:1862-1925 | An RFID entry is invalid exactly when it is not two halves or has no card; the test for the zero card never decides |
| CardEntries.ZeroCardIsAssigned | FaceApp_baidu/MqttHeartbeatManager.cpp:1862-1925 | The all-zero card is assigned to its employee as card 0 |
| CardNumbers.CardIsItsNumber | FaceApp_baidu/MqttHeartbeatManager.cpp:1880-1900 | The stored card is the decimal number, without a zero in front, that the hex digits in front of the last two characters stand for, whatever those two are |
| CardNumbers.CardExact | FaceApp_baidu/MqttHeartbeatManager.cpp:1880-1900 | The last two characters of more than two are dropped; what is left is stored as its decimal number if it is one, and as it is otherwise |
| CardNumbers.HexValueOf | FaceApp_baidu/MqttHeartbeatManager.cpp:1895-1900 | Hex digits with or without sign and 0x are read as their positional value if it fits 64 bits |
| CardNumbers.HexFormOf | FaceApp_baidu/MqttHeartbeatManager.cpp:1895-1900 | No other text is read as a number |
| CardNumbers.EntryExact | FaceApp_baidu/MqttHeartbeatManager.cpp:1870-1925 | An entry with one colon is invalid without a card, unassigned without an employee or with "-", and else assigns the card on the left to the employee on the right, both trimmed; the same for QR codes |
| CardNumbers.OnlyTheseCount | FaceApp_baidu/MqttHeartbeatManager.cpp:1870-1878 | Every entry without exactly one colon is invalid |
| CardNumbers.TrimExact | FaceApp_baidu/MqttHeartbeatManager.cpp:1880 | Trimming takes the spaces off both ends and nothing else |
| CardSync.GroupCards | FaceApp_baidu/MqttHeartbeatManager.cpp:1862-1925 | The groups are the cards of each listed employee in order; assigned, unassigned and invalid entries add up to all, and the groups hold as many cards as were assigned |
| CardSync.GroupSizesUpdate | FaceApp_baidu/MqttHeartbeatManager.cpp:1862-1925 | Replacing one group changes the number of cards by the difference of the two groups |
| CardSync.CardsInOrder | FaceApp_baidu/MqttHeartbeatManager.cpp:1914-1922 | The cards of an employee are those of the entries assigned to the employee, each once, in the order of the entries |
| CardSync.JoinSnoc | FaceApp_baidu/MqttHeartbeatManager.cpp:2025 | Cards are joined by single commas |
| CardSync.SyncRfid | FaceApp_baidu/MqttHeartbeatManager.cpp:1938-1979 | Every row ends with the joined cards of its employee if listed, known in RAM and written, else with NULL after a successful clear; if all statements succeed, whatever it held before; nothing else of a row changes |
| CardSync.AssignCodes | FaceApp_baidu/MqttHeartbeatManager.cpp:2900-2946 | Each employee ends with the code of its last assignment, and the counters add up |
| CardSync.LastAssignmentWins | FaceApp_baidu/MqttHeartbeatManager.cpp:2900-2946 | An assignment with none for the same employee after it decides the code |
| CardSync.NoCodeIffUnlisted | FaceApp_baidu/MqttHeartbeatManager.cpp:3003-3015 | There is no code for an employee exactly when no entry assigns one |
| CardSync.SyncFourDoor | FaceApp_baidu/MqttHeartbeatManager.cpp:2960-3015 | Every row known in RAM and written ends with the last code of its employee, or NULL if no entry assigns one, whether or not the bulk clear succeeded; the others depend on the clear only; nothing else changes |
| Base64.DecodeEncode | FaceApp_baidu/base64.hpp:48-128 | Decoding the encoding of any bytes gives the bytes |
| Base64.GroupIsTheSameBits | FaceApp_baidu/base64.hpp:58-61 | The 24 bits of three octets are those of the four sextets, in order |
| Base64.CharsAt | FaceApp_baidu/base64.hpp:39-42 | The table is the alphabet of section 4 of RFC 4648 |
| Base64.EncodedLength | FaceApp_baidu/base64.hpp:48-87 | n bytes become 4 * ceil(n / 3) characters |
| Base64.EncodedIsCanonical | FaceApp_baidu/base64.hpp:69-84 | Encodings have whole groups, padding only at the end, and no stray bits |
| Base64.EncodeDecodeExact | FaceApp_baidu/base64.hpp:89-128 | Encoding the decoding of a string gives the string exactly when it is canonical |
| Base64.DecodedExact | FaceApp_baidu/base64.hpp:89-128 | Any text of symbols decodes to the whole bytes among its bits, in order; bits behind the last whole byte are dropped, whatever they are |
| Base64.BodyStops | FaceApp_baidu/base64.hpp:97 | Decoding ends at the first character outside the alphabet |
| Base64.Encode | FaceApp_baidu/base64.hpp:48-87 | The loop over the 3- and 4-byte buffers computes the specified encoding |
| Base64.Decode | FaceApp_baidu/base64.hpp:89-128 | The loop, stopping at the first character outside the alphabet, computes the specified decoding |
| SensorPackets.UnpackedPacket | FaceApp_baidu/BaiduFace/FingerprintManager.cpp:367-425 | A receiver that checks header, address, type, length and checksum gets back command and data |
| SensorPackets.BuildPacket | FaceApp_baidu/BaiduFace/FingerprintManager.cpp:379-425 | The buffer filled by index holds the packet |
| SensorPackets.ParseResponse | FaceApp_baidu/BaiduFace/FingerprintManager.cpp:515-555 | Finds the first header with room for a packet and moves everything from the confirmation code on to the front; without one the buffer is as it was |
| SensorPackets.PayloadExact | FaceApp_baidu/BaiduFace/FingerprintManager.cpp:515-555 | What is received starts nine bytes behind the first EF 01 that leaves room for a packet, wherever that is; without one nothing is received |
| SensorPackets.NoiseIsSkipped | FaceApp_baidu/BaiduFace/FingerprintManager.cpp:520-550 | Noise without a header in front of a packet does not change what is received of it |
| SensorPackets.TemplateIsPrefix | FaceApp_baidu/BaiduFace/FingerprintManager.cpp:1506-1561 | For a 12-byte acknowledgement and a stream, any first read of at least 12 bytes and the second read together give a prefix of the stream: no byte lost, none twice |
| SensorPackets.RecoverTemplate | FaceApp_baidu/BaiduFace/FingerprintManager.cpp:1494-1586 | The template is the over-read bytes followed by the second read |
| SensorPackets.RepairRestores | FaceApp_baidu/BaiduFace/FingerprintManager.cpp:1638-1648 | The repair gives a template without its first four bytes those bytes back and leaves whole ones alone |
| SensorPackets.RepairExact | FaceApp_baidu/BaiduFace/FingerprintManager.cpp:1638-1648 | Exactly the templates of at least four bytes that begin with 00 00 08 get the four bytes EF 01 00 00 in front; all others stay as they are |
| SensorPackets.UploadTemplate | FaceApp_baidu/BaiduFace/FingerprintManager.cpp:1650-1680 | Chunks of 1 to 139 bytes whose concatenation is the stream, ceil(size / 139) of them; it fails exactly at an unframed template or a short write |
| Enrolment.CaptureExtends | FaceApp_baidu/BaiduFace/FingerprintManager.cpp:681-763 | n attempts send at most 2n commands and no STORE, and success means that the last two are an accepted capture and an accepted GEN_CHAR into the buffer |
| Enrolment.StageExtends | FaceApp_baidu/BaiduFace/FingerprintManager.cpp:560-862 | A stage sends a bounded number of commands and no STORE, and success means image, capture, GEN_CHAR and a passed duplicate check in this order |
| Enrolment.EnrolmentIsSafe | FaceApp_baidu/BaiduFace/FingerprintManager.cpp:1023-1164 | Whatever is read after the commands: at most 318 commands, STORE at most once and last, only after buffers 1, 2 and 3 each passed their stage in order, and success exactly when what is read after STORE is an acceptance |
| Enrolment.EnrolmentLog | FaceApp_baidu/BaiduFace/FingerprintManager.cpp:1023-1164 | The first command asks for an image, REG_MODEL is sent at most once and only STORE follows it |
| EnrolmentSteps.EnrolmentFollowsProtocol | FaceApp_baidu/BaiduFace/FingerprintManager.cpp:560-1164 | Against any sensor each command of an enrolment is the one that the answers before it call for, with the data of its sample; a search is sent exactly behind a count that is not zero; no more than 100 polls and three captures are made for a sample; and the log ends with STORE or where the protocol stops |
| EnrolmentSteps.StoreUnlessStopped | FaceApp_baidu/BaiduFace/FingerprintManager.cpp:560-1164 | STORE is sent exactly unless the enrolment stops: at a poll or REG_MODEL that could not be written, after 100 polls, at a refused capture or GEN_CHAR (in the third sample after three attempts, or at a code other than 0 and 1), at a closed port, or at a search not answered "not found" |
| EnrolmentSteps.AnswerBytes | FaceApp_baidu/BaiduFace/FingerprintManager.cpp:438-555 | The code of an answer stands nine bytes behind its header, also behind noise, and the count in the two bytes after it |
| EnrolmentSteps.SilenceAnswersNothing | FaceApp_baidu/BaiduFace/FingerprintManager.cpp:438-520 | A failed write, silence and fewer than 12 bytes answer nothing |
| SensorLine.OwnExact | FaceApp_baidu/BaiduFace/FingerprintManager.cpp:438-555 | A read belongs to its own command, from the first byte to the last, exactly when nothing older was on the line at the write; otherwise its first byte is an older one |
| SensorLine.BehindFlush | FaceApp_baidu/PCIcore/UARTUart.cpp:435-442 | Behind a ReadFlush nothing older is on the line exactly when every earlier answer had arrived by then |
| SensorLine.Shifted | FaceApp_baidu/BaiduFace/FingerprintManager.cpp:606-676 | Without a flush, a late answer that is read as a whole is taken for that of the next command, whose own answer stays for the one after |
| SensorLine.LateCapturePassesAsGenChar | FaceApp_baidu/BaiduFace/FingerprintManager.cpp:704-739 | In the retry loop the late answer to one capture is taken for that of the next, and the answer to that capture for that of GEN_CHAR |
| EnrolmentOnLine.JudgedByOwn | FaceApp_baidu/BaiduFace/FingerprintManager.cpp:560-933 | On any line, what a command of an enrolment is judged by begins with its own answer exactly when nothing older was on the line; for polls and the search, exactly when all earlier answers had arrived by the flush |
| EnrolmentOnLine.EnrolmentJudges | FaceApp_baidu/BaiduFace/FingerprintManager.cpp:867-933 | With a sensor that answers in time every command before STORE is judged by its own whole answer, and the enrolment succeeds exactly when the answers to REG_MODEL and STORE, read as one, begin with an acceptance |
| EnrolmentOnLine.StoreIsNotHeard | FaceApp_baidu/BaiduFace/FingerprintManager.cpp:867-933 | With a sensor that answers in time and acknowledges REG_MODEL, an enrolment that gets as far as STORE succeeds exactly when REG_MODEL was accepted, whatever the answer to STORE |
| EnrolmentOnLine.RefusedStoreIsReported | FaceApp_baidu/BaiduFace/FingerprintManager.cpp:1023-1164 | A sensor that acknowledges everything and refuses STORE: the enrolment sends fourteen commands and reports success |
| EnrolmentOnLine.StoreIsHeard | FaceApp_baidu/BaiduFace/FingerprintManager.cpp:867-933 | If it does not answer REG_MODEL, the bytes that decide are those of the answer to STORE |
| FingerprintManager.Manager.ReadFlush | FaceApp_baidu/PCIcore/UARTUart.cpp:435-442 | What has arrived and was not read is lost, what is on its way is not |
| FingerprintManager.Manager.SendCommand | FaceApp_baidu/BaiduFace/FingerprintManager.cpp:379-425 | One command goes out, and the sensor's answer joins what is on its way; false, and nothing on the line, when the write fails |
| FingerprintManager.Manager.ReceiveResponse | FaceApp_baidu/BaiduFace/FingerprintManager.cpp:438-555 | One read of at most 16 bytes of whatever has arrived, parsed in place; the rest stays on the line |
| FingerprintManager.Manager.Exchange | FaceApp_baidu/BaiduFace/FingerprintManager.cpp:606-633 | A command and its read leave line and log as the specification of one command on the line says |
| FingerprintManager.Manager.DetectFinger | FaceApp_baidu/BaiduFace/FingerprintManager.cpp:560-604 | The polling loop of at most 100 attempts, as specified |
| FingerprintManager.Manager.CaptureAndGenerateCharWithRetry | FaceApp_baidu/BaiduFace/FingerprintManager.cpp:681-763 | The retry loop, which gives up at once on codes other than 0 and 1 |
| FingerprintManager.Manager.CheckForDuplicates | FaceApp_baidu/BaiduFace/FingerprintManager.cpp:768-862 | Passes on an empty database or, behind a flush, on "not found" |
| FingerprintManager.Manager.Store | FaceApp_baidu/BaiduFace/FingerprintManager.cpp:888-933 | REG_MODEL, whose answer is left on the line, then STORE with the id in two bytes and one read |
| FingerprintManager.Manager.StartEnrollment | FaceApp_baidu/BaiduFace/FingerprintManager.cpp:1023-1164 | Flushes, then refines the specified enrolment on its line, with the bound on commands and the order before STORE; what is left on the line counts as older than all its commands |
| PageStrip.StripIncreases | FaceApp_baidu/pagenavigator.cpp:126-216 | Visible labels strictly increase and are pages from 1 to the maximum |
| PageStrip.CurrentOnce | FaceApp_baidu/pagenavigator.cpp:126-216 | The current page is on exactly one visible label |
| PageStrip.HiddenExactly | FaceApp_baidu/pagenavigator.cpp:165-191 | A page is hidden exactly when it lies in one of the two gaps around the middle block |
| PageStrip.RegimesDisjointExact | FaceApp_baidu/pagenavigator.cpp:173-184 | The first two regimes are disjoint exactly when there are more pages than labels |
| PageStrip.RegimeExact | FaceApp_baidu/pagenavigator.cpp:173-191 | Each regime is one position of a window that follows the current page as far as it fits, and says on which side of the current page pages are hidden |
| PageStrip.WhatIsSeen | FaceApp_baidu/pagenavigator.cpp:126-216 | On a right strip pages increase, the current one is highlighted exactly once, and every page without a label has a separator on its side of the current page |
| PageNavigation.PageNavigator.constructor | FaceApp_baidu/pagenavigator.cpp:4-19 | The new widget shows page 1 of 1, with an odd block size of at least 3 |
| PageNavigation.PageNavigator.OddBlock | FaceApp_baidu/pagenavigator.cpp:115-124 | Odd, at least 3, and otherwise at most one more than asked |
| PageNavigation.PageNavigator.SetMaxPage | FaceApp_baidu/pagenavigator.cpp:86-96 | A new maximum of at least 1 goes to page 1; the same maximum changes nothing |
| PageNavigation.PageNavigator.SetCurrentPage | FaceApp_baidu/pagenavigator.cpp:98-113 | Goes to the nearest page there is, signals exactly a change that asks for it, and leaves a right strip |
| PageNavigation.PageNavigator.UpdatePageLabels | FaceApp_baidu/pagenavigator.cpp:126-216 | The three regimes and the loops leave a right strip |
| PageNavigation.PageNavigator.ClickLabel | FaceApp_baidu/pagenavigator.cpp:233-250 | A click on a visible label makes its page current, and signals unless it was the highlighted one |
| PageNavigation.PageNavigator.ClickPrevious | FaceApp_baidu/pagenavigator.cpp:223-226 | One page back with a signal, but not before page 1 |
| PageNavigation.PageNavigator.ClickNext | FaceApp_baidu/pagenavigator.cpp:228-231 | One page on with a signal, but not past the last |
| FaceSlots.UniqueKept | FaceApp_baidu/BaiduFace/BaiduFaceManager.cpp:1632-1693 | No call puts a nonzero id into a second slot |
| FaceSlots.EvictedExact | FaceApp_baidu/BaiduFace/BaiduFaceManager.cpp:1656-1688 | A miss overwrites exactly the first slot that is not listed, or slot 0 when all are |
| FaceSlots.ListedSurvives | FaceApp_baidu/BaiduFace/BaiduFaceManager.cpp:1661-1682 | A listed slot survives every call while some slot is not listed |
| FaceSlots.NeverAllListed | FaceApp_baidu/BaiduFace/BaiduFaceManager.cpp:1853-1856 | With distinct ids and an unused last entry of the list, some slot is not listed |
| FaceSlots.MissTakesSlotZero | FaceApp_baidu/BaiduFace/BaiduFaceManager.cpp:1661-1688 | A miss while slot 0 is not listed takes slot 0, writes the id of the face into the list, and leaves the other slots alone |
| FaceSlots.FaceIsUpToDate | FaceApp_baidu/BaiduFace/BaiduFaceManager.cpp:1867-1886 | Seeing a face changes one slot at most, the first one with its key if there is one: it holds the key, the place, one more sighting modulo 2^32 if alive, and MATCH if it had it, else MOVING; the list gets the id |
| FaceSlots.FrameLists | FaceApp_baidu/BaiduFace/BaiduFaceManager.cpp:1851-1886 | A frame puts the ids of the accepted ones of its first nine faces into the entries of the list with their places, and changes no other entry |
| FaceSlots.SlotsOnEveryRun | FaceApp_baidu/BaiduFace/BaiduFaceManager.cpp:1851-1886 | After every run of frames ids are distinct, and whatever face comes next, no slot that the list names is lost |
| FaceSlots.SpacedFacesShareSlotZero | FaceApp_baidu/BaiduFace/BaiduFaceManager.cpp:1867-1886 | In a frame where no id follows another one, all faces of an empty table go through slot 0; at the end it holds the last accepted of the first nine, and the other slots are empty |
| FaceSlots.SecondFaceEvictsFirst | FaceApp_baidu/BaiduFace/BaiduFaceManager.cpp:1867-1886 | Of two faces that appear in an empty table, the second takes the slot of the first |
| FaceTable.BaiduFaceManager.GetCoreFace | FaceApp_baidu/BaiduFace/BaiduFaceManager.cpp:1632-1693 | The two loops find the specified slot; a hit changes nothing, a miss wipes that slot only |
| FaceTable.BaiduFaceManager.SeeFaces | FaceApp_baidu/BaiduFace/BaiduFaceManager.cpp:1851-1886 | The loop over the faces of a frame, ending before the tenth, changes slots and list as specified |

## Left out

- Timestamps.OrdersAgree: is stated for `yyyy-MM-ddTHH:mm:ss` with `Z`, `+HH:MM`, `-HH:MM` or no zone; the further forms that Qt's ISO parser takes (fractions of a second, week dates, `24:00`) are outside, and a time without a zone is read with one fixed offset of the device.
- Timestamps.OrdersExact: the same; offsets are read with minutes up to 59 and any two digits of hours.
- Timestamps.NewerIsApplied: the same, and the times of the two sides have one suffix.
- Timestamps.NewerIsAppliedExact: the same, for any suffixes of that form.
- CardSync.SyncRfid: takes a list of strings; the guard at the head of the function is part of the configuration protocol, and elements that are not strings are not represented.
- CardSync.SyncFourDoor: the same, and the timestamp columns that the syncs write at their end are outside.
- SensorPackets.UploadTemplate: models the repair, the framing test and the chunks; the DownChar exchange before them and the STORE exchange after them are outside.
- SensorPackets.RecoverTemplate: starts at the answer to UpChar; the LoadChar exchange before it is outside.
- PageNavigation.PageNavigator.ClickLabel: hidden labels get no clicks; the text of the page entry field is outside, entering a page is SetCurrentPage.
- FaceTable.BaiduFaceManager.SeeFaces: the choice of the largest face, the quality scores and the drawing are outside; what other code writes into a slot is an event of the run that leaves the id alone.
- AddUserForm.AddUserFrm.CaptureFingerButton: the enrolment on the sensor and the download of the backup are given by their results; messages, labels and the publishing of the print are outside.
- PersonFeatures.FeatureOnEveryRun: follows a person by personid, taken to be a primary key that ascends in row order.
- EnrolmentOnLine.EnrolmentJudges: is about a sensor that answers in time; for any other one the first byte read is attributed, not the whole read.
- PersonAgreement.AgreementOnEveryRun: SELECT statements succeed, idcards and names are never NULL, and a uuid is looked up by equality; iccardnum, qr_code and the timestamp columns are not compared because the syncs write them in the table only.
- SyncConvergence.Converges: that a sync of employees, faces or fingerprints also applies each person's data is not stated; those folds are outside; they call the person operations above, one entry at a time. A file's `ok` stands for download, parsing and the test for an array.
- Except.ExpansionPreservesMeaning: RETURN, and break, continue, goto or return out of a block, are outside; loops and branches take their decisions from a finite tape, so only terminating runs are represented, and function calls are inlined.
- ClearAllDataForTenantChange is modelled by its effect on the persons only, not its locking.
- Concurrency: each operation is one step under its lock; the mutexes themselves are not modelled.
- 32-bit limits of page numbers and of primary keys are not modelled; finger ids are truncated to 16 bits, tracker ids and slot ids wrap at 32 bits.
- JSON, SQL text, LIKE matching, schema migration, MQTT, downloads, the serial port and timing appear only as results of calls.
- Identification, deletion and counting on the sensor, the SDK calls, image handling, the widgets other than the page strip, `getCoreFaceFake`, `errr.cpp` and `FingerprintManager (copy).cpp` are not modelled.
