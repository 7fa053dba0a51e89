# Active-record WHERE builder, modelled in Dafny

This project models the core of a thin active-record layer written in PHP on
top of the RedBeanPHP ORM:

* `php.dfy` (module `Php`): the pieces of PHP the layer relies on — scalars and
  their truthiness and string interpolation, `explode`/`implode` on a
  one-character delimiter, `lcfirst` and `trim` with its default character list
  (space, tab, newline, carriage return, NUL and vertical tab).
* `active_record.dfy` (module `ActiveRecord`): the abstract `Model` class.
  `where`, `orWhere` and `whereIn` append a clause record (rendered fragment,
  bound values, combinator) to the pending list `$__where`; `get` folds the list
  into one filter string and one positional parameter list, empties it and asks
  the ORM's finder; `modelClassName` derives the entity name; `save` stamps
  `updated_at`/`created_at`; `update` assigns attributes to every target and
  saves each, aborting at the first target without an id.
  `Model` is a class with the fields `where` (the pending clauses) and `fields`
  (the record's bean properties); its methods state the new state exactly.
  The loops of `get` and `update` are the methods `Fold` and `SaveAll`, each
  proved against a specification (`Filter`/`Params`, `FirstMissing`/`Prepare`).
* `users.dfy` (module `Users`): `User::getFullName`.

The ORM is abstract throughout: its finder is a function parameter
`find: FindRequest -> seq<Bean>`, its store operation a function parameter
`store: Bean -> Scalar` (the value `Facade::store` returns, whose truthiness
is the success of a save), and the clock of `new DateTime()` the parameter `now`.

Behaviour that follows the code rather than a looser description of it:

* The combinator is concatenated as given, between the space-padded
  fragments: `where('status', '=', 'active')->orWhere('role', 'admin')`
  compiles to `" status = ? or role = ? "` (lemma `StatusOrRoleFilter`).
* `update` stores the targets before the first one without an id and then
  returns false; nothing is rolled back (`SaveOutcome`, `MissingIdFails`).
* `whereIn` with an empty list renders `" c IN () "`: `isset([])` holds, so
  the list branch is taken for every list (`WhereInClause`).
* `isset` is false for an explicit `null`, so `where('c', '!=', null)`
  compares `c` with the string `"!="` (`ExplicitNullValue`).
* The operator `switch` compares with PHP 8's loose equality, under which
  only the strings `=`, `!=` and `<>` match those cases (`ListOperator`).

## Model

| member | source | states |
|---|---|---|
| `Php.Explode` | App/Model.php:34 | `explode` yields at least one piece, and no piece contains the delimiter |
| `Php.ImplodeExplode` | App/Model.php:34 | joining the pieces of `explode` with the delimiter gives back the string |
| `Php.ExplodeImplode` | App/Model.php:34 | exploding delimiter-free pieces joined by the delimiter gives back the pieces |
| `Php.ExplodeLast` | App/Model.php:34-35 | the last piece (`end`) is a suffix of the string: the whole string when there is one piece, otherwise the text after a delimiter |
| `Php.LcFirst` | App/Model.php:35 | `lcfirst` keeps the length, lower-cases the first character and keeps every other character |
| `Php.LcFirstKeepsAbsent` | App/Model.php:35 | `lcfirst` introduces no character other than a lower-case letter |
| `Php.TrimLeft` | App/Models/User.php:24 | the result is the suffix left after all leading trim-space, and does not begin with trim-space |
| `Php.TrimRight` | App/Models/User.php:24 | the result is the prefix left before all trailing trim-space, and does not end with trim-space |
| `Php.Trim` | App/Models/User.php:24 | the result of `trim` neither begins nor ends with trim-space |
| `Php.TrimIsSlice` | App/Models/User.php:24 | the trim is the slice of the input that starts after its leading trim-space, with only trim-space after it, and neither begins nor ends with trim-space |
| `Php.TrimUnchanged` | App/Models/User.php:24 | a string without surrounding trim-space is its own trim |
| `Php.TrimAllSpace` | App/Models/User.php:24 | a string of trim-space only trims to the empty string |
| `Php.TrimDropsLeadingSpace` | App/Models/User.php:24 | a leading trim-space character does not change the trim |
| `Php.TrimDropsTrailingSpace` | App/Models/User.php:24 | a trailing trim-space character does not change the trim |
| `ActiveRecord.SlotsShape` | App/Model.php:96 | `genSlots` for n values is `?` at even positions and `,` at odd ones, of length 2n-1 (empty for n = 0) |
| `ActiveRecord.SlotsCount` | App/Model.php:96 | the placeholder group for n values holds exactly n `?` |
| `ActiveRecord.DefaultOperator` | App/Model.php:80-83 | with the value omitted, `where(c, x)` appends the same clause as `where(c, '=', x)` for every set x |
| `ActiveRecord.ExplicitNullValue` | App/Model.php:80-83 | an explicit null value moves the operator into the value position: `where(c, '!=', null)` renders `c = ?` and binds `"!="` |
| `ActiveRecord.ScalarClause` | App/Model.php:84-105 | a scalar value renders `" c op ? "` and binds a one-element list holding exactly that value |
| `ActiveRecord.ListClause` | App/Model.php:86-105 | a list value rewrites `=` to IN and `!=`/`<>` to NOT IN, keeps other operators, renders `(` n comma-separated `?` `)` and binds the list in its order |
| `ActiveRecord.WhereInClause` | App/Model.php:131-134 | `whereIn` renders `c IN (…)`, or `c NOT IN (…)` when negated, and binds the values |
| `ActiveRecord.ClauseBalanced` | App/Model.php:84-105 | when column, combinator and rendered operator contain no `?`, a clause's fragment has one `?` per bound value |
| `ActiveRecord.FilterSnoc` | App/Model.php:145-149 | appending a clause appends its fragment, prefixed by its own combinator unless it is the first clause |
| `ActiveRecord.ParamsAppend` | App/Model.php:150 | the parameters of consecutive clause lists are the concatenation of their parameters, in order |
| `ActiveRecord.ScalarParams` | App/Model.php:145-151 | with scalar clauses only there is one parameter per clause, in call order |
| `ActiveRecord.CompiledBalanced` | App/Model.php:145-151 | when every clause is balanced, the filter holds exactly as many `?` as there are parameters |
| `ActiveRecord.Fold` | App/Model.php:143-151 | the loop of `get` yields the filter (first fragment unprefixed, later ones after their combinator) and the concatenated parameters |
| `ActiveRecord.StatusOrRoleFilter` | App/Model.php:145-151 | `where('status','=','active')->orWhere('role','admin')` compiles to `" status = ? or role = ? "` with parameters `active`, `admin` |
| `ActiveRecord.ModelClassNameIsLastSegment` | App/Model.php:32-36 | the entity name is the `lcfirst` of the text after the last `\` of the class name and contains no `\` |
| `ActiveRecord.UserEntityName` | App/Model.php:34-35 | the class `App\Models\User` has the entity name `user` |
| `ActiveRecord.StampSetsTimestamps` | App/Model.php:163-168 | `updated_at` always becomes the current time, `created_at` only when missing or falsy, every other property is kept |
| `ActiveRecord.FirstMissing` | App/Model.php:191-195 | the index of the first target without a truthy id: every earlier target has one |
| `ActiveRecord.SaveAll` | App/Model.php:190-200 | the targets before the first one without an id are assigned, stamped and stored in order; the result is false on a missing id, else the success of the last store, true for no target |
| `ActiveRecord.MissingIdFails` | App/Model.php:191-195 | a target without an id makes `update` report failure, having stored no target from it on |
| `ActiveRecord.Model.constructor` | App/Model.php:30 | a new model has no pending clauses |
| `ActiveRecord.Model.Where` | App/Model.php:78-107 | appends exactly one clause at the end, keeps the earlier ones and the record, and returns the same object |
| `ActiveRecord.Model.OrWhere` | App/Model.php:117-120 | appends the clause `where` would append with the combinator `or` |
| `ActiveRecord.Model.WhereIn` | App/Model.php:131-134 | appends the clause of `where(c, not ? '<>' : '=', values, implode)` |
| `ActiveRecord.Model.Compile` | App/Model.php:141-152 | returns the compiled filter and parameters of the pending clauses and leaves none pending, so an immediate second call yields `""` and `[]` |
| `ActiveRecord.Model.Get` | App/Model.php:141-158 | asks the finder for the entity name, compiled filter and parameters, and leaves no clause pending |
| `ActiveRecord.Model.Save` | App/Model.php:160-170 | stamps the record's timestamps, then returns what the store returns for the stamped record |
| `ActiveRecord.Model.Update` | App/Model.php:178-202 | empty attributes: false, nothing stored, nothing changed; otherwise the targets are what `get` finds when clauses are pending, else this record alone, and the outcome is that of `SaveAll` |
| `Users.GetFullName` | App/Models/User.php:22-25 | the full name neither begins nor ends with trim-space |
| `Users.FullNameWithoutFirst` | App/Models/User.php:24 | with an empty first name the full name is the trimmed last name |
| `Users.FullNameWithoutLast` | App/Models/User.php:24 | with an empty last name the full name is the trimmed first name |
| `Users.FullNameExact` | App/Models/User.php:24 | two non-empty names without surrounding white space are joined by exactly one space |
| `Users.FullNameBlank` | App/Models/User.php:24 | names that are empty or white space only give the empty full name |

## Left out

- `__call` and `__callStatic` (App/Model.php:38-50): runtime method interception; the three builder operations are ordinary named methods, and the static entry points are the constructor followed by a call.
- `create`, `find` and `refresh` (App/Model.php:55-67, 204-208): single calls into the ORM, which is not part of this model.
- The ORM's `Facade::find` and `Facade::store`: abstract function parameters; what they do with the database is not modelled.
- `new DateTime()`: the clock is the parameter `now`, one value for every save of one `update` call.
- The `if (static::UPDATED_AT)` and `if (static::CREATED_AT …)` guards: both constants are non-empty strings, so the guards always hold; a subclass that blanks them is not modelled.
- Objects returned by the finder are values (`Bean`); their assignment and stamping are visible in `update`'s `saved` trace, not as changes to shared objects, and a found object that is `$this` itself is not identified with it.
- PHP values beyond null, integers, strings and lists of them (booleans, floats, objects, associative arrays); the loose comparisons of PHP 7; bean property magic beyond "a missing property reads as null".
- `Model.Update`: `$attributes` is a map, so the order in which PHP assigns the attributes is not modelled; the keys are distinct, so the result does not depend on it.
