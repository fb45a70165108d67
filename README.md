# Shipglobal core, modelled in Dafny

This project models the logic at the heart of the Shipglobal package-forwarding
backend, a Django service where users register, wait for admin approval, log in
and receive parcels into a virtual mailbox that later become shipments. It
models:

- **the rate slab** (`PriceSlab`, `price_slab.dfy`): the step function from a
  weight ceiling to a flat price. A weight is charged at the smallest ceiling at
  or above it, or at the largest ceiling when it is heavier than all of them.
  The module also builds a slab from rate-file rows.
- **the price-stamping hook** (`PriceHook`, `price_hook.dfy`): after a mailbox
  item is first saved, it stores the calculator's price once.
- **the records and their store** (`Records`, `records.dfy`):
  - `User`, `Mailbox` and `AdminUser` rows;
  - a `Db` class holding the user and mailbox tables as maps;
  - an `AdminUsers` class whose `Save` refuses an admin that has no allowed IP.
- **the authentication views** (`AuthViews`, `auth_views.dfy`): registration,
  user login, admin login, admin registration, the approval list and toggle,
  the mailbox value update, the user list and the user details. Each view
  returns an HTTP status, and the views that write change the `Db` in place.
- **the shipment list** (`ShipmentViews`, `shipment_views.dfy`): the
  visibility filter and the projection of each shipment into a response row.

Weights, prices and money are exact reals. The source uses Python floats and
`Decimal`.

## Model

| member | source | states |
|---|---|---|
| PriceSlab.GetPriceForWeight | authentication/shipping_price_calculator.py:32-40 | an empty slab is an error (Python's `max` of no keys raises); otherwise the result is the price at the ceiling `Ceiling` describes |
| PriceSlab.SortedKeys | authentication/shipping_price_calculator.py:34 | the slab's keys, each once, in strictly increasing order |
| PriceSlab.Ceiling | authentication/shipping_price_calculator.py:32-40 | the chosen ceiling is a slab key; it is the least key at or above the weight if there is one, and the greatest key otherwise |
| PriceSlab.CeilingIsUnique | authentication/shipping_price_calculator.py:32-40 | any key that meets that description is the chosen one, so the lookup is fully determined |
| PriceSlab.ExactCeilingIsChosen | authentication/shipping_price_calculator.py:35 | a weight equal to a key is charged that key's price, because of the `<=` |
| PriceSlab.HeavyWeightFallsBack | authentication/shipping_price_calculator.py:38-39 | a weight above every key is charged at the largest key |
| PriceSlab.PriceIsASlabValue | authentication/shipping_price_calculator.py:40 | the price is always one of the slab's values |
| PriceSlab.CeilingIsMonotone | authentication/shipping_price_calculator.py:32-40 | the chosen ceiling never decreases as the weight grows |
| PriceSlab.PriceIsMonotone | authentication/shipping_price_calculator.py:32-40 | when prices rise with the ceilings, the price never decreases as the weight grows |
| PriceSlab.DefaultPricesRise | authentication/shipping_price_calculator.py:8-17 | the default slab's prices rise with its ceilings |
| PriceSlab.DefaultSlabExamples | authentication/shipping_price_calculator.py:8-17 | with the default slab, weight 2 costs 12, weight 2.5 costs 16 and weight 35 costs 70 |
| PriceSlab.LoadPriceSlab | authentication/shipping_price_calculator.py:19-30 | with no path or an empty one the result is the default slab unchanged; otherwise it is the rows folded in order |
| PriceSlab.SlabOfKeys | authentication/shipping_price_calculator.py:23-29 | the loaded slab's ceilings are exactly the rows' weights |
| PriceSlab.SlabOfLastRowWins | authentication/shipping_price_calculator.py:27-29 | a ceiling's price comes from the last row that names it, so later rows overwrite earlier ones |
| PriceHook.OrZero | authentication/signals.py:12 | a falsy price (None or zero) is stored as 0.00; any other price is stored unchanged |
| PriceHook.StampedPrice | authentication/signals.py:9-15 | the price changes only for a freshly created, unpriced item; a raising calculator leaves it None; otherwise the item gets the calculator's price or 0.00 |
| PriceHook.StampIsFinal | authentication/signals.py:9 | once an item has a price, no later run of the hook changes it |
| PriceHook.AutoCalculateShippingPrice | authentication/signals.py:8-15 | only that item's `shipping_price` is written, and the save happens only when a price was stamped; the nested save's signal (`created` false) changes nothing |
| Records.NewUser | authentication/models.py:11-12 | a new user starts unapproved with no unique user id |
| Records.InsertKeepsUnique | authentication/models.py:6 | adding a user whose username and email are unused keeps both unique |
| Records.LastAt | authentication/views.py:26 | the position of the last '@' in an address, or None exactly when it has none |
| Records.NormalizeEmail | authentication/views.py:26 | `create_user`'s email normalisation: the length is kept, an address without '@' is unchanged, everything up to the last '@' is kept and every character after it is lower-cased |
| Records.NormalizeKeepsLastAt | authentication/views.py:26 | normalising does not move the last '@' |
| Records.NormalizeEmailIsIdempotent | authentication/views.py:26 | normalising an already normalised address changes nothing |
| Records.LastAtBeforeDomain | authentication/views.py:26 | in `local@domain` with no '@' in `domain`, the last '@' is the one before the domain |
| Records.SameUpToDomainCase | authentication/views.py:26 | two addresses that agree up to their last '@' and differ after it only in letter case are stored alike |
| Records.DomainCaseIsFolded | authentication/views.py:26 | `local@Example.COM` and `local@example.com` are stored as the same address |
| Records.Db.CreateUser | authentication/models.py:5-12 | an empty or taken username, or an email whose normalised form is taken, is refused and nothing changes; otherwise exactly one new row is stored under the next key, with the normalised email, and the store stays valid (no two users share an email) |
| Records.SaveCheck | authentication/models.py:56-59 | the guard refuses exactly the admins with no allowed IP (None or empty); a row that passes has a unique username |
| Records.SaveKeepsAdminRowsValid | authentication/models.py:56-59 | a row the guard lets through keeps every stored admin with an allowed IP |
| Records.AdminUsers.Save | authentication/models.py:56-59 | an admin without an allowed IP raises and nothing is persisted; any other row, including a non-admin without an IP, is saved |
| AuthViews.UsernameOf | authentication/views.py:25 | the derived username is a prefix of the email, contains no '@', and stops at the first '@' |
| AuthViews.UsernameOfLocalPart | authentication/views.py:25 | for an email `local@domain` where `local` has no '@', the derived username is `local` |
| AuthViews.Register | authentication/views.py:19-28 | the serializer's rejections give 400; the email prefix, when empty or taken, gives 500, and so does an email whose normalised form is taken although the serializer's exact comparison let it through; otherwise exactly one unapproved non-superuser is stored, named by the email prefix, with the normalised email (201) |
| AuthViews.GetByUsername | authentication/views.py:95 | finds a user with the given username, or reports that none exists |
| AuthViews.UserLoginDecision | authentication/views.py:97-110 | an unapproved user gets 403 whatever the password; an approved one with a wrong password gets 401; tokens go only to an approved user with the right password |
| AuthViews.UserLogin | authentication/views.py:89-112 | an unknown username gets 401; a known one gets that user's decision; tokens are issued exactly when some user of that name is approved and the password matches |
| AuthViews.AdminLoginDecision | authentication/views.py:126-142 | a non-superuser gets 403; a non-empty allowed IP that differs from the client gets 403 before the password is checked; otherwise a wrong password gets 401 and a right one gets tokens |
| AuthViews.AdminLoginIgnoresIpWhenUnset | authentication/views.py:129 | with no allowed IP, or an empty one, the client address does not affect admin login |
| AuthViews.AdminLogin | authentication/views.py:116-144 | an unknown username gets 401; tokens are issued exactly to a superuser of that name whose IP check passes and whose password matches |
| AuthViews.AdminRegistrationAsWritten | authentication/views.py:64-86 | as written: a client other than 192.168.1.8 gets 403, and every request from 192.168.1.8 gets 400, so the view never answers 201 |
| AuthViews.AdminRegistrationAsWrittenRefusesFirstAdmin | authentication/views.py:77-86 | the first admin registered from the allowed address should be created, but as written gets 400 |
| AuthViews.AdminRegistration | authentication/views.py:64-86 | a client other than 192.168.1.8 gets 403 and nothing is created; on success the new superuser's allowed IP is the requested one, defaulting to the client's; any creation error gives 400 and nothing is stored |
| AuthViews.PendingUsers | authentication/views.py:33-40 | a non-superuser gets 403; a superuser gets exactly the users that are not approved |
| AuthViews.Approved | authentication/views.py:51-52 | the target becomes approved and nothing else about any user changes |
| AuthViews.ApprovalIsIdempotent | authentication/views.py:51 | approving twice is the same as approving once |
| AuthViews.ApprovalLeavesPending | authentication/views.py:38-52 | approving a user removes exactly that user from the pending list |
| AuthViews.ApprovalKeepsUnique | authentication/views.py:51-52 | approval keeps usernames and emails unique |
| AuthViews.ApproveUser | authentication/views.py:42-62 | a non-superuser gets 403, an unknown pk 404, and neither changes anything; otherwise the target is approved (200) and no other user changes |
| AuthViews.NewUserCannotLogIn | authentication/views.py:97-98 | a freshly registered user is refused with 403 |
| AuthViews.ApprovedUserLogsIn | authentication/views.py:97-103 | once approved, a user gets tokens exactly when the password matches |
| AuthViews.UpdateMailboxPrice | authentication/views.py:163-182 | an unknown item gives 404 (checked first); a requester who is neither owner nor superuser gets 403; a missing `product_value` gives 400; each error changes nothing; success changes only that item's `product_value` |
| AuthViews.NonAdminUsers | authentication/views.py:189-193 | the list is exactly the non-superusers, each with their username |
| AuthViews.UserDetailsWithMailbox | authentication/views.py:198-214 | an unknown user and a superuser both give 404; otherwise the user comes back with exactly the mailbox items they own |
| AuthViews.ListedExactlyWhenDetailed | authentication/views.py:192-202 | the user list names exactly the users whose details can be fetched |
| ShipmentViews.OwnedBy | shipping/views.py:13 | the filter keeps exactly the requester's shipments and never adds any |
| ShipmentViews.OwnedByAppend | shipping/views.py:13 | the filter keeps table order |
| ShipmentViews.OwnedByCounts | shipping/views.py:13 | each owned shipment is kept as many times as it occurs, and no other shipment is kept |
| ShipmentViews.OwnedCount | shipping/views.py:13 | the filter drops exactly the shipments of other users |
| ShipmentViews.Visible | shipping/views.py:10-13 | a superuser sees every shipment; anyone else sees only their own, and all of them |
| ShipmentViews.RowOf | shipping/views.py:15-25 | item name, value, tracking number, shipping price, creation time and dimension are copied unchanged; an empty invoice or image gives None, and a stored one gives its absolute URL |
| ShipmentViews.ShipmentList | shipping/views.py:9-28 | one row per visible shipment, in selection order |
| ShipmentViews.SuperuserSeesEveryShipment | shipping/views.py:10-11 | a superuser gets a row for every shipment in the table |
| ShipmentViews.UserSeesOwnShipments | shipping/views.py:12-25 | anyone else gets exactly one row per shipment they own, in table order |

The views that write (registration, admin registration, approval and the
mailbox value update) are methods that return a status and change the `Db`
tables in place. The views that only read (the login views, the pending list,
the user list, the user details and the shipment list) take the tables as
values and return a status together with the data or tokens the response
carries, so they cannot change a table.

Emails are compared in two ways. The registration serializer's uniqueness
check compares the address as given. `create_user` then stores the address
with its domain lower-cased and refuses one whose normalised form is already
stored. Nothing in the code compares the part before the '@'
case-insensitively.

The stored username is the text before the email's first '@', whatever
username the form asked for.

The `Mailbox` model at authentication/models.py:30-38 lists no `weight`,
`dimension` or `shipping_price`. The serializer and the hook use all three, so
`Records.MailboxItem` carries them.

## Findings

| source | as written | input that shows it | evidently intended | confidence | as-written member | corrected member |
|---|---|---|---|---|---|---|
| authentication/views.py:78-83 | `create_user(..., allowed_ip=ip)` is called on a `User` that has no `allowed_ip` field (authentication/models.py:5-12). Building the row raises TypeError, which the view turns into 400. No admin account can ever be created. | client 192.168.1.8, username "root", empty store: the answer is 400 | create a superuser whose allowed IP is the requested one, defaulting to the client address; `User` carries an optional `allowed_ip` | high (not executed) | AuthViews.AdminRegistrationAsWritten | AuthViews.AdminRegistration |

## Left out

- The shipping-price calculator `calculate_shipping_price` is imported by the hook but is not part of this model. What it did (returned a price, possibly None, or raised) is an input to `PriceHook`.
- Billable or volumetric weight, the signup abuse guard, checkout, payment and shipment status updates are not part of this model.
- The invoice PDF (authentication/utils/invoice.py) is not modelled: drawing, file paths, the clock and a float total.
- The hook's failure message is printed and not modelled.
- Floats: weights and prices are exact reals, so float rounding and the `float()` parsing of CSV cells are not modelled. `LoadPriceSlab` takes the rows already parsed, and file reading and its errors are out.
- `LoadPriceSlab` returns a copy of the default slab. The source returns the module-level dict itself, so a caller that mutates the result also mutates the default; that aliasing is not modelled.
- Password hashing and `check_password` are the abstract `PasswordCheck`, and no password is stored.
- JWT creation is reduced to the claims the login response carries.
- The approval email and `get_client_ip` are left out. The client address is an input.
- The serializer's field-format checks (email syntax, lengths, required fields) are the single input `fieldsValid` of `Register`. The uniqueness checks are modelled.
- `UpdateMailboxPrice` takes the new value already parsed. The source assigns whatever `product_value` holds, and a value the decimal column rejects raises at save time (500); that path is not modelled.
- An explicit JSON null for `allowed_ip` in the admin registration request is not distinguished from an absent key.
- `User.objects.get` raising MultipleObjectsReturned cannot happen in the model, because the store keeps usernames unique.
- `label_url` (shipping/views.py:20) is not modelled. The `Shipment` model (shipping/models.py:19-32) has no `label_pdf` field, so as written that attribute access raises.
- Shipment columns the list view does not read (carrier, tracking URL, paid, cost) are not modelled.
- Request plumbing is left out: middleware, URL routing, admin registrations, `ProtectedView`, and `MailboxView` list/create with the generic Mailbox and address views.
- The cascade delete of a user's mailbox items is not modelled. No modelled view deletes users.
- Records.Db.CreateUser: the NFKC normalisation of the username and the `strip()` of the email are not modelled. Usernames are compared and stored as given.
- Records.NormalizeEmail: lower-cases ASCII letters only. Python's `str.lower` also folds non-ASCII letters, and that Unicode case mapping is not modelled.
