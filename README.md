# JavaFX Car Selling: a verified model of the core

This project models a desktop used-car marketplace. Users register and log in. Logged-in
users list cars for sale with an optional picture, edit and delete their own listings,
search all listings, and keep a personal watchlist of other people's cars.

The model covers the core of the application:

- the three data-access objects over a relational store (users, cars, watchlist);
- the schema's constraints: unique usernames and emails, foreign keys with cascading
  deletes, and unique watchlist pairs;
- the session slot that holds the logged-in user;
- the Car record;
- the picture store;
- the logic of the four controllers behind the login, home, car-detail and add/edit
  screens.

The store is a `Schema.Database` object. It holds three tables as sequences in insertion
order, the id counters, and an insertion clock that stands for `created_at`. It also has
a flag saying whether a connection can be had. Every DAO method takes its failure path
when there is no connection or the tables do not exist. `Database.Valid()` states the
schema's constraints, and every state-changing method is proved to keep them.

The Java library pieces the logic relies on are written out in `JavaLang`:

- `null` as `Option`;
- `String.trim`, `Integer.parseInt` with its `int` range, and `lastIndexOf`;
- `new BigDecimal(String)` and its comparisons.

Module `SqlLike` gives the meaning of SQL `LIKE`. `BCrypt` models jBCrypt's key: the first 72 bytes of the password's UTF-8 encoding plus a zero byte, repeated to fill 72 bytes. The cipher itself is taken as an ideal function of salt and key.

Each module follows one source file. The DAOs and the file store are classes or methods
over the store's state. The queries they run are specified by pure functions
(`CarQuery.NewestFirst`, `WatchlistDao.WatchJoin`, `UserDao.Login`). The controllers are
classes whose fields are the ones their Java counterparts update: the edited car, the
chosen picture, and the visible buttons. Their validation chains are pure functions.

## Model

| member | source | states |
|---|---|---|
| JavaLang.TrimLeading | src/main/java/com/carselling/controllers/LoginController.java:63 | the result is a suffix of the input, starts with a character above U+0020, and everything cut off is blank |
| JavaLang.TrimTrailing | src/main/java/com/carselling/controllers/LoginController.java:63 | the result is a prefix of the input, ends with a character above U+0020, and everything cut off is blank |
| JavaLang.TrimEmptyIffBlank | src/main/java/com/carselling/controllers/LoginController.java:63-66 | `trim().isEmpty()` holds exactly when every character of the string is at most U+0020 |
| JavaLang.TrimIdempotent | src/main/java/com/carselling/controllers/HomeController.java:204-205 | trimming a trimmed string changes nothing |
| JavaLang.LastIndexOf | src/main/java/com/carselling/utils/ImageHandler.java:31 | the index holds the character and no later index does; -1 when it is absent |
| JavaLang.IndexOf | src/main/java/com/carselling/controllers/CarManagementController.java:147 | the index holds the character and no earlier index does; -1 when it is absent |
| JavaLang.ParseInt | src/main/java/com/carselling/controllers/CarManagementController.java:135 | a parsed value lies in Java's `int` range and comes from text ending in a digit; any digit string within range parses to its value |
| JavaLang.ParseIntRoundTrip | src/main/java/com/carselling/controllers/CarManagementController.java:87 | every Java `int` printed by `String.valueOf` parses back to itself |
| JavaLang.DigitsRoundTrip | src/main/java/com/carselling/controllers/CarManagementController.java:87 | the digits printed for a natural number denote that number |
| JavaLang.ParseDecimal | src/main/java/com/carselling/controllers/CarManagementController.java:147 | a parsed BigDecimal's scale is at most the length of the text |
| JavaLang.SplitDecimal | src/main/java/com/carselling/controllers/CarManagementController.java:147 | plain notation splits into digits before and after at most one point, with at least one digit |
| JavaLang.ParseDecimalValue | src/main/java/com/carselling/controllers/CarManagementController.java:147 | a sign, digits and an optional point with more digits parse to all the digits read as one integer, negated after `-`, with scale equal to the number of digits after the point |
| JavaLang.PlainStringRoundTrip | src/main/java/com/carselling/controllers/CarManagementController.java:88 | a price printed into the edit form parses back at line 147 to the same unscaled value and scale |
| JavaLang.ParseIntIsDecimal | src/main/java/com/carselling/controllers/HomeController.java:213-221 | any text `Integer.parseInt` accepts denotes the same number as a BigDecimal of scale 0 |
| JavaLang.PositiveIffUnscaledPositive | src/main/java/com/carselling/controllers/CarManagementController.java:148 | `compareTo(ZERO) > 0` holds exactly when the unscaled value is positive |
| BCrypt.HashPw | src/main/java/com/carselling/database/UserDAO.java:22 | the hash records the salt it was made with, and `checkpw` accepts the password it was made from |
| BCrypt.LongPasswordsShareKey | src/main/java/com/carselling/database/UserDAO.java:56 | two passwords whose UTF-8 encodings agree on their first 72 bytes get the same key, so `checkpw` accepts either against the other's hash |
| BCrypt.SeventyThirdCharacterIgnored | src/main/java/com/carselling/database/UserDAO.java:56 | seventy-two `a`s followed by `Y` verify against the hash of seventy-two `a`s followed by `X` |
| BCrypt.SaltsSeparateHashes | src/main/java/com/carselling/database/UserDAO.java:22 | two salts give two different hashes of one password, and both verify it |
| SqlLike.PercentMatchesAll | src/main/java/com/carselling/database/CarDAO.java:190-193 | the pattern `%` matches every value |
| SqlLike.LiteralThenPercent | src/main/java/com/carselling/database/CarDAO.java:190-193 | a wildcard-free literal followed by `%` matches exactly the values that start with it |
| SqlLike.LeadingPercent | src/main/java/com/carselling/database/CarDAO.java:190-193 | a leading `%` matches exactly when the rest matches some suffix |
| SqlLike.ContainsPattern | src/main/java/com/carselling/database/CarDAO.java:190-198 | for a wildcard-free word, `LIKE '%word%'` holds exactly when the word is a substring |
| Schema.DropCars | src/main/java/com/carselling/database/SchemaInitializer.java:40 | the table after a delete holds exactly the rows not selected |
| Schema.DropCarsOrdered | src/main/java/com/carselling/database/SchemaInitializer.java:28-42 | deleting car rows keeps ids and stamps ascending |
| Schema.DropEntries | src/main/java/com/carselling/database/SchemaInitializer.java:50-51 | the watchlist after a delete or cascade holds exactly the entries not selected |
| Schema.DropEntriesOrdered | src/main/java/com/carselling/database/SchemaInitializer.java:45-54 | deleting entries keeps ids and stamps ascending |
| Schema.DropEntriesUnique | src/main/java/com/carselling/database/SchemaInitializer.java:52 | deleting entries keeps each (user, car) pair at most once |
| Schema.DropUser | src/main/java/com/carselling/database/SchemaInitializer.java:18-25 | the users table after a delete holds exactly the other users |
| Schema.DropUserValid | src/main/java/com/carselling/database/SchemaInitializer.java:20-21 | deleting a user keeps ids ascending and usernames and emails unique |
| Schema.OwnedIds | src/main/java/com/carselling/database/SchemaInitializer.java:40 | the set holds exactly the ids of the user's cars |
| Schema.Initialize | src/main/java/com/carselling/database/SchemaInitializer.java:9-85 | with a connection the tables exist afterwards, and running it again changes nothing; without one it does not complete |
| Schema.DeleteUser | src/main/java/com/carselling/database/SchemaInitializer.java:40-51 | deleting a user cascades to their cars, their entries and every entry on those cars, and keeps every constraint |
| Schema.CascadeValid | src/main/java/com/carselling/database/SchemaInitializer.java:40-52 | the tables after the cascade meet every constraint: foreign keys, uniqueness, ordering |
| Session.IdOf | src/main/java/com/carselling/utils/SessionManager.java:28-30 | the held user's id, or -1 when the slot is empty |
| Session.SentinelMeansLoggedOut | src/main/java/com/carselling/utils/SessionManager.java:28-30 | for a user drawn from the store, an id of -1 means exactly "nobody logged in", and no stored user has id -1 |
| Session.SessionManager.constructor | src/main/java/com/carselling/utils/SessionManager.java:6 | nobody is logged in at start |
| Session.SessionManager.SetCurrentUser | src/main/java/com/carselling/utils/SessionManager.java:12-14 | the slot holds exactly the given user |
| Session.SessionManager.GetCurrentUser | src/main/java/com/carselling/utils/SessionManager.java:16-18 | returns the slot |
| Session.SessionManager.Logout | src/main/java/com/carselling/utils/SessionManager.java:24-26 | afterwards nobody is logged in and the id is -1 |
| Session.SessionManager.CurrentUserId | src/main/java/com/carselling/utils/SessionManager.java:20-30 | -1 exactly when logged out (or the held user's id is -1) |
| Session.SetThenRead | src/main/java/com/carselling/utils/SessionManager.java:12-30 | after setting the slot, isLoggedIn says whether a user was set and the id is that user's; setting null matches logout |
| CarModel.Car.Empty | src/main/java/com/carselling/models/Car.java:19 | every field at its Java default |
| CarModel.Car.constructor | src/main/java/com/carselling/models/Car.java:22-33 | each argument goes to its field; id stays 0 and createdAt null |
| CarModel.Car.SetId | src/main/java/com/carselling/models/Car.java:40-42 | only `id` changes, to the argument |
| CarModel.Car.SetUserId | src/main/java/com/carselling/models/Car.java:48-50 | only `userId` changes |
| CarModel.Car.SetBrand | src/main/java/com/carselling/models/Car.java:56-58 | only `brand` changes |
| CarModel.Car.SetModel | src/main/java/com/carselling/models/Car.java:64-66 | only `model` changes |
| CarModel.Car.SetYear | src/main/java/com/carselling/models/Car.java:72-74 | only `year` changes |
| CarModel.Car.SetPrice | src/main/java/com/carselling/models/Car.java:80-82 | only `price` changes |
| CarModel.Car.SetMileage | src/main/java/com/carselling/models/Car.java:88-90 | only `mileage` changes |
| CarModel.Car.SetColor | src/main/java/com/carselling/models/Car.java:96-98 | only `color` changes |
| CarModel.Car.SetDescription | src/main/java/com/carselling/models/Car.java:104-106 | only `description` changes |
| CarModel.Car.SetImagePath | src/main/java/com/carselling/models/Car.java:112-114 | only `imagePath` changes |
| CarModel.Car.SetCreatedAt | src/main/java/com/carselling/models/Car.java:120-122 | only `createdAt` changes |
| CarQuery.FieldsOf | src/main/java/com/carselling/database/CarDAO.java:247-266 | a row reads back with its id, owner, stamp, and non-null brand, model and price |
| CarQuery.ReadAll | src/main/java/com/carselling/database/CarDAO.java:233-237 | one car per row, in result-set order |
| CarQuery.ReadBackInserted | src/main/java/com/carselling/database/CarDAO.java:12-50 | a stored car reads back as itself, with the generated id and the insertion stamp |
| CarQuery.OverwriteOnlyGuardedRow | src/main/java/com/carselling/database/CarDAO.java:52-54 | the update touches only the row whose id and owner both match, sets its eight columns, and keeps its id, owner and stamp |
| CarQuery.FindCar | src/main/java/com/carselling/database/CarDAO.java:109-132 | a found row has the id asked for; nothing is found exactly when no row has it |
| CarQuery.TextFiltersAreSubstrings | src/main/java/com/carselling/database/CarDAO.java:190-218 | for words without wildcards, a search keeps a car exactly when brand and model contain the words and the year and price lie within the supplied bounds |
| CarQuery.SearchQueryMeaning | src/main/java/com/carselling/database/CarDAO.java:187-220 | the built statement has one placeholder per parameter, a predicate exactly for each supplied filter, in fixed order, and selects exactly the rows the filter describes |
| CarQuery.BoundStatement | src/main/java/com/carselling/database/CarDAO.java:229-231 | binding parameter k to placeholder k+1 gives the statement the meaning of its predicate list |
| CarQuery.NewestFirstMembers | src/main/java/com/carselling/database/CarDAO.java:134-182 | a listing query returns exactly the selected rows |
| CarQuery.NewestFirstDescending | src/main/java/com/carselling/database/CarDAO.java:220 | the rows come with strictly decreasing `created_at` |
| CarQuery.SameSelection | src/main/java/com/carselling/database/CarDAO.java:184-245 | two selections that agree on every row return the same result set |
| CarQuery.SearchWithoutFilters | src/main/java/com/carselling/database/CarDAO.java:184-220 | a search with no filter supplied returns what getAllCars returns |
| CarQuery.Keep | src/main/java/com/carselling/database/CarDAO.java:134-182 | a filtered list is no longer than its input |
| CarQuery.KeepAppend | src/main/java/com/carselling/database/CarDAO.java:134-182 | filtering distributes over concatenation |
| CarQuery.SelectionOfAllCars | src/main/java/com/carselling/database/CarDAO.java:134-182 | every listing is getAllCars' list filtered, in the same order |
| CarDao.CreateCar | src/main/java/com/carselling/database/CarDAO.java:12-50 | succeeds exactly when a connection exists, brand, model and price are non-null and the owner exists; it appends the row and writes the generated id back into the car; otherwise nothing changes |
| CarDao.InsertKeepsValid | src/main/java/com/carselling/database/CarDAO.java:12-50 | appending a fresh car of an existing owner keeps every constraint |
| CarDao.UpdateCar | src/main/java/com/carselling/database/CarDAO.java:52-83 | succeeds exactly when a row has the car's id and the car object's owner; only that row is overwritten |
| CarDao.OverwriteKeepsValid | src/main/java/com/carselling/database/CarDAO.java:52-83 | an update keeps every constraint |
| CarDao.DeleteCar | src/main/java/com/carselling/database/CarDAO.java:85-107 | succeeds exactly when a row has both the id and the owner; it removes that row and, by cascade, the car's watchlist entries |
| CarDao.DeleteKeepsValid | src/main/java/com/carselling/database/CarDAO.java:85-107 | the delete and its cascade keep every constraint |
| CarDao.MapRowToCar | src/main/java/com/carselling/database/CarDAO.java:247-266 | a new Car whose fields are the row's columns |
| CarDao.ReadResultSet | src/main/java/com/carselling/database/CarDAO.java:233-237 | the loop yields one car per row, in order |
| CarDao.GetCarById | src/main/java/com/carselling/database/CarDAO.java:109-132 | null exactly when there is no connection or no row with that id; otherwise a new Car of that row |
| CarDao.GetAllCars | src/main/java/com/carselling/database/CarDAO.java:134-156 | every car, newest first; empty without a connection |
| CarDao.GetCarsByUserId | src/main/java/com/carselling/database/CarDAO.java:158-182 | the owner's cars, newest first |
| CarDao.TextSupplied | src/main/java/com/carselling/database/CarDAO.java:190 | a text filter counts exactly when it is non-null and not blank |
| CarDao.BuildSearchQuery | src/main/java/com/carselling/database/CarDAO.java:187-220 | the statement and parameters hold one predicate per supplied filter, in the order brand, model, minYear, maxYear, minPrice, maxPrice |
| CarDao.AddTextFilters | src/main/java/com/carselling/database/CarDAO.java:190-198 | the brand and model predicates, each only when supplied, with a `%text%` parameter |
| CarDao.AddBounds | src/main/java/com/carselling/database/CarDAO.java:200-218 | the four bounds, each only when supplied, after the text predicates |
| CarDao.BindParams | src/main/java/com/carselling/database/CarDAO.java:229-231 | placeholder k+1 is bound to parameter k, and nothing else is bound |
| CarDao.SearchCars | src/main/java/com/carselling/database/CarDAO.java:184-245 | the cars the filter describes, newest first; empty without a connection |
| CarDao.ExecutedSearchSelects | src/main/java/com/carselling/database/CarDAO.java:227-237 | the built statement, with its parameters bound, selects exactly the rows the filter describes |
| UserDao.CountWherePositive | src/main/java/com/carselling/database/UserDAO.java:81-129 | `COUNT(*) > 0` exactly when some row has the value |
| UserDao.CountWhereAtMostOne | src/main/java/com/carselling/database/SchemaInitializer.java:20-21 | with UNIQUE columns the count is 0 or 1 |
| UserDao.FirstLogin | src/main/java/com/carselling/database/UserDAO.java:39-54 | the row found answers the identifier as username or email; none exactly when no row does |
| UserDao.FindUser | src/main/java/com/carselling/database/UserDAO.java:131-165 | the row found has the id; none exactly when no row has it |
| UserDao.AddUserKeepsValid | src/main/java/com/carselling/database/UserDAO.java:11-36 | a new user with a free username and a free email keeps every constraint |
| UserDao.LoginIgnoresBytesPast72 | src/main/java/com/carselling/database/UserDAO.java:56 | a password that agrees with the typed one on the first 72 UTF-8 bytes logs in the same user |
| UserDao.LoginSound | src/main/java/com/carselling/database/UserDAO.java:38-79 | a login returns only a stored row that answers the identifier and whose hash verifies the password; an unknown identifier gives null |
| UserDao.FirstLoginIsEarliest | src/main/java/com/carselling/database/UserDAO.java:39-54 | the first answering row wins over any later one |
| UserDao.SignUpThenLogin | src/main/java/com/carselling/database/UserDAO.java:38-79 | a new user logs in by username exactly when no earlier user's email equals that username |
| UserDao.SignUpThenLoginByEmail | src/main/java/com/carselling/database/UserDAO.java:38-79 | a new user logs in by email exactly when no earlier user's username equals that email |
| UserDao.CreateUser | src/main/java/com/carselling/database/UserDAO.java:11-36 | succeeds exactly when there is a connection and both username and email are free; it stores the hash, never the password |
| UserDao.AuthenticateUser | src/main/java/com/carselling/database/UserDAO.java:38-79 | the login lookup's answer, or null without a connection |
| UserDao.UsernameExists | src/main/java/com/carselling/database/UserDAO.java:81-104 | true exactly when there is a connection and a user has the name |
| UserDao.EmailExists | src/main/java/com/carselling/database/UserDAO.java:106-129 | true exactly when there is a connection and a user has the email |
| UserDao.GetUserById | src/main/java/com/carselling/database/UserDAO.java:131-165 | the user with the id, or null exactly when there is none or no connection |
| WatchlistDao.CountPositive | src/main/java/com/carselling/database/WatchlistDAO.java:63-87 | `COUNT(*) > 0` exactly when the pair is listed |
| WatchlistDao.CountAtMostOne | src/main/java/com/carselling/database/SchemaInitializer.java:52 | with UNIQUE(user_id, car_id) the count is 0 or 1 |
| WatchlistDao.EntriesNewestFirst | src/main/java/com/carselling/database/WatchlistDAO.java:91-94 | exactly the user's entries |
| WatchlistDao.EntriesNewestFirstDescending | src/main/java/com/carselling/database/WatchlistDAO.java:94 | the entries come with strictly decreasing `created_at` |
| WatchlistDao.JoinFollowsEntries | src/main/java/com/carselling/database/WatchlistDAO.java:91-94 | under the foreign key, the join gives one car per entry, in entry order |
| WatchlistDao.WatchJoinMembers | src/main/java/com/carselling/database/WatchlistDAO.java:91-94 | the join lists exactly the stored cars the user has an entry for |
| WatchlistDao.DropAbsentPair | src/main/java/com/carselling/database/WatchlistDAO.java:39-61 | deleting an unlisted pair changes nothing |
| WatchlistDao.DropEntriesAppend | src/main/java/com/carselling/database/WatchlistDAO.java:39-61 | deleting distributes over concatenation |
| WatchlistDao.AddThenRemove | src/main/java/com/carselling/database/WatchlistDAO.java:11-61 | adding an unlisted pair and then removing it restores the table |
| WatchlistDao.AddKeepsValid | src/main/java/com/carselling/database/WatchlistDAO.java:11-37 | a new entry for an existing user and car, not yet listed, keeps every constraint |
| WatchlistDao.RemoveKeepsValid | src/main/java/com/carselling/database/WatchlistDAO.java:39-61 | a delete keeps every constraint |
| WatchlistDao.AddToWatchlist | src/main/java/com/carselling/database/WatchlistDAO.java:11-37 | succeeds exactly when there is a connection, both user and car exist and the pair is not listed; it appends the entry |
| WatchlistDao.RemoveFromWatchlist | src/main/java/com/carselling/database/WatchlistDAO.java:39-61 | true exactly when the pair was listed; afterwards it is not |
| WatchlistDao.IsInWatchlist | src/main/java/com/carselling/database/WatchlistDAO.java:63-87 | true exactly when there is a connection and the pair is listed |
| WatchlistDao.GetWatchlistCars | src/main/java/com/carselling/database/WatchlistDAO.java:89-133 | the joined cars, newest entry first |
| ImageHandler.FileName | src/main/java/com/carselling/utils/ImageHandler.java:30 | the name is a slash-free suffix of the path |
| ImageHandler.ExtensionShape | src/main/java/com/carselling/utils/ImageHandler.java:29-34 | the extension is empty, or a suffix that starts at the name's last dot, past the first character |
| ImageHandler.ResolveToken | src/main/java/com/carselling/utils/ImageHandler.java:37-43 | resolving a stored token gives the very path the picture was copied to |
| ImageHandler.ResolveIdempotent | src/main/java/com/carselling/utils/ImageHandler.java:59-62 | resolving a resolved path changes nothing |
| ImageHandler.RenameKeepsExtension | src/main/java/com/carselling/utils/ImageHandler.java:29-37 | the copy keeps the original's extension |
| ImageHandler.FileStore.SaveImage | src/main/java/com/carselling/utils/ImageHandler.java:22-50 | null for a missing source or an I/O error, with nothing copied; otherwise the source is copied under the UUID name and the token is returned |
| ImageHandler.FileStore.GetImageFile | src/main/java/com/carselling/utils/ImageHandler.java:52-71 | the resolved path exactly when the path is non-empty and the file exists |
| ImageHandler.FileStore.DeleteImage | src/main/java/com/carselling/utils/ImageHandler.java:73-94 | true exactly when a file at the resolved path was removed |
| ImageHandler.SaveThenLoad | src/main/java/com/carselling/utils/ImageHandler.java:22-71 | a saved picture is found again through its token, with the copied contents |
| Login.Credentials | src/main/java/com/carselling/controllers/LoginController.java:63-69 | login stops exactly when the trimmed identifier or the untrimmed password is empty |
| Login.HandleLogin | src/main/java/com/carselling/controllers/LoginController.java:61-79 | the session holds a user exactly when the store authenticates the trimmed identifier with the typed password; otherwise it keeps what it held |
| Login.FormCheck | src/main/java/com/carselling/controllers/LoginController.java:141-160 | each local check fails exactly when the earlier ones pass and its own condition fails |
| Login.RegisterVerdictMeaning | src/main/java/com/carselling/controllers/LoginController.java:139-185 | an account is created exactly when the form passes, the store is reachable and both trimmed username and email are free; the username is checked first |
| Login.RegisterThenLogin | src/main/java/com/carselling/controllers/LoginController.java:139-185 | after registering, login by username or email returns the new account exactly when no older account holds that text in the other column |
| Login.HandleRegisterSubmit | src/main/java/com/carselling/controllers/LoginController.java:139-185 | the outcome is the verdict, and only a successful registration appends the hashed user and advances the id counter and the clock |
| Home.TextParam | src/main/java/com/carselling/controllers/HomeController.java:204-230 | none exactly for blank text; otherwise the trimmed, non-blank text |
| Home.YearInput | src/main/java/com/carselling/controllers/HomeController.java:213-218 | blank, parsed to the `int` of the trimmed text, or unparseable, each exactly in its case |
| Home.PriceInput | src/main/java/com/carselling/controllers/HomeController.java:219-224 | blank, parsed to the BigDecimal of the trimmed text, or unparseable, each exactly in its case |
| Home.Bound | src/main/java/com/carselling/controllers/HomeController.java:212-227 | a bound is set exactly when the try block reached a parsed field |
| Home.WellFormedSearch | src/main/java/com/carselling/controllers/HomeController.java:212-227 | with every number field parseable, each bound is set exactly when its field is filled, to its value |
| Home.BadFieldDropsLaterBounds | src/main/java/com/carselling/controllers/HomeController.java:212-227 | an unparseable field leaves its own bound and every later bound unset, and the text filters unaffected |
| Home.EarlierBoundsKept | src/main/java/com/carselling/controllers/HomeController.java:212-227 | the fields before the first unparseable one keep their bounds |
| Home.HandleSearch | src/main/java/com/carselling/controllers/HomeController.java:202-234 | the search runs with the filter the form describes, and the result is the matching cars, newest first |
| Home.LoadMyCars | src/main/java/com/carselling/controllers/HomeController.java:241-248 | nothing when logged out; otherwise the user's cars newest first, and every shown car is theirs |
| Home.LoadAllCars | src/main/java/com/carselling/controllers/HomeController.java:236-239 | every stored car is shown, newest first |
| Home.ShortDescription | src/main/java/com/carselling/controllers/HomeController.java:324-327 | no label for a null or empty description; a description of at most 100 characters is shown as is, a longer one as its first 100 characters and "..." |
| Home.ShortDescriptionIdempotent | src/main/java/com/carselling/controllers/HomeController.java:324-327 | shortening a shortened description changes nothing |
| CarDetail.ButtonsFor | src/main/java/com/carselling/controllers/CarDetailController.java:95-109 | the owner sees Edit and Delete only; another logged-in user sees exactly one watchlist button, matching the watchlist; a visitor sees none |
| CarDetail.SentinelOwnsNoCar | src/main/java/com/carselling/controllers/CarDetailController.java:227 | the logged-out id -1 owns no stored car |
| CarDetail.CarDetailController.constructor | src/main/java/com/carselling/controllers/CarDetailController.java:54 | no car yet, every button hidden |
| CarDetail.CarDetailController.LoadCarDetails | src/main/java/com/carselling/controllers/CarDetailController.java:68-110 | with a car, the buttons follow the session and the watchlist |
| CarDetail.CarDetailController.SetCar | src/main/java/com/carselling/controllers/CarDetailController.java:58-61 | the car is remembered and the page laid out for it |
| CarDetail.CarDetailController.HandleDelete | src/main/java/com/carselling/controllers/CarDetailController.java:215-243 | on confirmation the car is deleted exactly when the logged-in user owns it, with its watchlist entries |
| CarDetail.CarDetailController.HandleAddToWatchlist | src/main/java/com/carselling/controllers/CarDetailController.java:245-266 | a logged-in user's insert succeeds exactly when the DAO's does; the entry is appended with the next id and stamp, and the page then offers "remove" |
| CarDetail.CarDetailController.HandleRemoveFromWatchlist | src/main/java/com/carselling/controllers/CarDetailController.java:268-289 | a logged-in user's delete succeeds exactly when the pair was listed, and the page then offers "add" |
| CarManagement.ReadMeaning | src/main/java/com/carselling/controllers/CarManagementController.java:123-158 | brand and model are missing, and mileage is given, exactly by blankness of the typed text |
| CarManagement.DecideOrder | src/main/java/com/carselling/controllers/CarManagementController.java:122-169 | each error is reported exactly when every earlier check passes and its own fails; the form is accepted exactly when all pass |
| CarManagement.AcceptedValues | src/main/java/com/carselling/controllers/CarManagementController.java:133-169 | an accepted year lies in [1900, 2100], the price is positive, the mileage is non-negative and 0 when left blank |
| CarManagement.AcceptedFormIsStorable | src/main/java/com/carselling/controllers/CarManagementController.java:187-216 | an accepted form stores non-blank, trimmed brand and model with a price, so the NOT NULL columns are met |
| CarManagement.CarManagementController.constructor | src/main/java/com/carselling/controllers/CarManagementController.java:60-61 | no car in edit, no picture chosen |
| CarManagement.CarManagementController.SetCarForEdit | src/main/java/com/carselling/controllers/CarManagementController.java:72-78 | the form now edits that car |
| CarManagement.CarManagementController.BrowseImage | src/main/java/com/carselling/controllers/CarManagementController.java:103-118 | the chosen file is remembered, null when cancelled |
| CarManagement.CarManagementController.ChooseImage | src/main/java/com/carselling/controllers/CarManagementController.java:171-182 | a chosen picture is copied and its token used, and a failed copy stops the save; otherwise an edited car keeps its path |
| CarManagement.CarManagementController.ApplyEdit | src/main/java/com/carselling/controllers/CarManagementController.java:204-213 | the seven fields are overwritten, and the picture only when there is one |
| CarManagement.CarManagementController.Persist | src/main/java/com/carselling/controllers/CarManagementController.java:185-216 | a new car is inserted for the session's user id, drawing the next id and stamp; an edit overwrites the car object and its guarded row and draws neither |
| CarManagement.CarManagementController.Store | src/main/java/com/carselling/controllers/CarManagementController.java:171-216 | a failed copy of the chosen picture stops the save with the store unchanged; otherwise the picture is copied under its unique name and the car is created or updated with it, drawing an id and a stamp only on a successful insert |
| CarManagement.CarManagementController.HandleSave | src/main/java/com/carselling/controllers/CarManagementController.java:120-229 | a failed check reports its error and changes nothing; a failed copy stops the save; otherwise the chosen picture is copied under its unique name and the car is created or updated with the trimmed, parsed values, drawing an id and a stamp only on a successful insert |

## Left out

- The JavaFX screens: labels, styling, navigation between scenes, alerts and card layout
  (`updateUI`, `displayCars`, `handleEdit`, `handleBack`, `showError`), and the form filling
  done by `loadCarData`. These only display state. The model keeps the state they display:
  the outcome values, the button visibility, and the lists shown.
- The confirmation dialog of a delete: it is the `confirmed` parameter.
- The random UUID of a copied picture and the BCrypt salt: both are parameters.
- The JDBC connection and configuration (`DatabaseConnection`, `ConfigLoader`,
  `Main`): a connection is the `available` flag of the store.
- `WatchlistController` and the `Watchlist` and `User` record classes: they are not part of
  this model. `User` is the row datatype.
- SQL error codes: the duplicate-entry code 1062 and any other SQLException give the same
  false result, and that is what the model states.
- Indexes, column collation, and the VARCHAR length limits of the schema.
- `DECIMAL(10,2)` rounding on insert: prices are stored exactly as entered.
- Overflow of the auto-increment ids.
- `JavaLang.ParseInt`: accepts ASCII digits only. Java's `Integer.parseInt` also accepts
  the other Unicode decimal digits (`Character.digit`), for example Arabic-Indic digits.
- `JavaLang.SplitDecimal`: accepts ASCII digits only. `new BigDecimal(String)` also
  accepts the other Unicode decimal digits.
- `Login.FormCheck`: measures the password in Unicode characters. Java's `length()` counts
  UTF-16 units, so a character outside the Basic Multilingual Plane (an emoji) counts
  twice there and once here. Short passwords with such characters can differ in verdict.
- `Home.ShortDescription`: counts and cuts in Unicode characters. Java's `length()` and
  `substring(0, 100)` count UTF-16 units, so text with characters outside the Basic
  Multilingual Plane is cut at a different place, possibly between the halves of a pair.
- `BCrypt.CheckPw`: follows jBCrypt's key handling, which ends the key with a zero byte.
  The library version is not given by the project, and older versions differ in that
  byte. A password containing U+0000 is encoded as one zero byte. Cipher collisions
  between different keys are not modelled.
- `CarDao.CreateCar`, `CarDao.UpdateCar`, `CarManagement.CarManagementController.HandleSave`:
  a price with more than eight digits before the point does not fit `DECIMAL(10,2)`.
  MySQL in strict mode refuses it and the call returns false, while the model stores
  it. Whether the server is strict is server configuration, which the project does not
  set.
- `CarDao.CreateCar`, `UserDao.CreateUser`, `WatchlistDao.AddToWatchlist`: the model
  numbers rows from a counter that advances only on success. InnoDB also uses up
  auto-increment values on failed inserts, so real ids can have gaps. Only "fresh and
  larger than every earlier id" is meant, not the exact number.
- `Schema.Database.constructor`, `Schema.Database.SetAvailable`,
  `ImageHandler.FileStore.constructor`: these set up the environment (an empty database,
  a connection that comes and goes, a file system) and do not model source code.
- `WatchlistDao.EntriesNewestFirst`: the watchlist's `created_at` is a strictly increasing insertion
  stamp, as for `CarQuery.NewestFirst`. Entries added within the same second are
  ordered by insertion.
- `JavaLang.ParseDecimal`: covers plain notation only (a sign, digits, at most one point).
  BigDecimal's exponent forms such as `1E3` are treated as unparseable.
- `CarQuery.FilterHolds`: the `%` and `_` in a search word keep their LIKE meaning,
  because the source does not escape them. `CarQuery.TextFiltersAreSubstrings` states
  the substring reading only for words without them.
- `CarQuery.NewestFirst`: `created_at` is a strictly increasing insertion stamp.
  Rows inserted within the same database second, which real timestamps would tie, are
  ordered by insertion.
- `UserDao.FirstLogin`: the login statement has no ORDER BY. The model takes table order,
  so the oldest matching row wins.
- Listing queries return the values of the Car objects they build, not the objects. Those
  objects are fresh and shared with nobody, so nothing observable is lost.
- `CarManagement.CarManagementController.HandleSave`: names the check-chain result in a
  ghost out-parameter so the contract can refer to it. It also does not model deleting a
  picture that was copied before a save that then fails; the source does not delete it
  either.
- `Schema.DeleteUser`: no DAO or controller offers this deletion. It is modelled to state
  the user cascade of the schema.
- `CarDao.UpdateCar`: enforces ownership with the car object's own `userId`, not the
  session's. It is stated that way because the source does so. Only the controller decides
  which car object reaches it.
