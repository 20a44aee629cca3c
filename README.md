# R_x polynomial engine, modelled in Dafny

R_x is a single-variable polynomial engine over floating-point coefficients.
It is one C++ header, `R_x/Polynomial.h`, with two types:

- A `Term` is a coefficient and an exponent. It has negation, the two products, and the iterated power-rule shifts: `<<` is the antiderivative step and `>>` the derivative step.
- A `Polynomial` is a vector of terms. `combine` keeps it in a normal form: the vector is sorted by descending exponent and equal exponents are merged.

On top of `combine`, `Polynomial` has:
- `zero_remove` and `fill`;
- the ring operators;
- long division `/` and `%` on padded arrays;
- integration and differentiation by shifting every term;
- the Euclidean gcd `&` and the lcm `|` built from it.

The model has nine modules:

- `Coefs` (coef.dfy): a coefficient is an exact real `Num(r)` or the indeterminate value `Indet`. `Indet` stands for the quiet NaN that marks the constant of integration, and for every infinity or NaN a division by zero would make. It absorbs every operation.
- `Terms` (term.dfy): the `Term` value and its operators. `<<` and `>>` are methods with the source's loops. Each is proved equal to a closed form, a division by the rising product or a multiplication by the falling product.
- `NormalForm` (normal_form.dfy): `Coeff(s, e)` is the coefficient of x^e, the sum over the terms with that exponent. It also holds:
  - the specification functions `Combined` (combine), `ZeroRemoved` (zero_remove) and `Filled` (fill);
  - the uniqueness lemma for normal sequences, on which most proofs rest.
- `Ring` (ring.dfy): the specification functions of the ring operators. Each states the result's exponents and its coefficient at every exponent.
- `LongDivision` (division.dfy): the elimination steps of `/` and `%` on the padded arrays. Over exact numbers, the remainder vanishes from the divisor's degree upwards, and dividend = divisor * quotient + remainder at every exponent.
- `Calculus` (calculus.dfy): `<<`, `>>` and `integral()` on whole polynomials.
- `Euclid` (euclid.dfy): the loop of `&`, with termination proved from the strictly falling leading exponent of `c_other`, and `|` as a composition.
- `Divisibility` (divisibility.dfy): divisibility over exact numbers, stated with the real convolution sum. It proves the division identity for every exponent, that a common divisor passes through `%`, and that `&` is a greatest common divisor and `|` a common multiple.
- `Polynomials` (polynomial.dfy): the class `Polynomial`, with a field `terms: seq<Term>`.
  - `combine`, `zero_remove`, `fill` and `addTerm` update `terms` in place, with the source's index loops.
  - Each operator is a method that returns a fresh `Polynomial` built with the source's loops. It is proved to equal the specification function of its operator.

Two behaviours of the source are kept because the code does them:
- A ring result starts from the default polynomial `{0*x^0}`, so it always has an exponent-0 term.
- `p - t` for a term `t` ignores `p`.

## Model

| member | source | states |
|---|---|---|
| Terms.ShiftUp | R_x/Polynomial.h:30-41 | `t << n` raises the exponent by n. Over exact numbers, the new coefficient times (e+1)...(e+n) is the old coefficient. A 0*x^0 term becomes the indeterminate constant at exponent n. The result is the closed form `Antiderive`. |
| Terms.ShiftDown | R_x/Polynomial.h:43-55 | For n <= exp, `t >> n` lowers the exponent by n and multiplies the coefficient by e(e-1)...(e-n+1). For n > exp it is 0*x^0. The result is the closed form `Derive`. |
| Terms.AntideriveCancels | R_x/Polynomial.h:30-41 | A nonzero numeric term taken n antiderivative steps has a numeric coefficient, and multiplying it by the rising product gives back the original coefficient. |
| Terms.DeriveAntiderive | R_x/Polynomial.h:30-55 | `(t << n) >> n == t` for every term other than 0*x^0 with a numeric coefficient. |
| Terms.FallingRising | R_x/Polynomial.h:30-55 | The factor of n derivative steps from x^(e+n) equals the divisor of n antiderivative steps from x^e, so the two shifts are inverse. |
| Terms.NegateInvolution | R_x/Polynomial.h:18-20 | Unary `-` keeps the exponent, and applying it twice gives the term back. |
| Terms.TimesCommutes | R_x/Polynomial.h:22-24 | The term product commutes, adds the exponents, and has 1*x^0 as its unit. |
| Terms.ScaleIsTimesConstant | R_x/Polynomial.h:26-28 | Multiplying a term by a number k is multiplying it by the term k*x^0, and the exponent is kept. |
| NormalForm.Combined | R_x/Polynomial.h:99-112 | After `combine` the exponents strictly decrease and the set of exponents is unchanged. Each exponent's coefficient is the sum of the input's coefficients at it. The length never grows, and the result is empty only when the input is. |
| NormalForm.CombinedNormal | R_x/Polynomial.h:99-112 | A sequence already in normal form is left as it is by `combine`. |
| NormalForm.CombineIdempotent | R_x/Polynomial.h:99-112 | Combining twice is combining once. |
| NormalForm.CombinedCongruent | R_x/Polynomial.h:99-112 | Two sequences with the same exponents and the same coefficient sums combine to the same vector, whatever order the sort leaves equal exponents in. |
| NormalForm.CombinedAppend | R_x/Polynomial.h:140-148 | Appending to a combined vector and combining again (`addTerm` after a combine) equals combining the whole sequence once. |
| NormalForm.ZeroRemoved | R_x/Polynomial.h:113-122 | After `zero_remove`: the result is nonempty and normal; every term but the last has a nonzero coefficient; the last term is the combined input's last term; no new exponent appears; every coefficient is unchanged. |
| NormalForm.ZeroRemovedIdempotent | R_x/Polynomial.h:113-122 | `zero_remove` is idempotent, and combining first changes nothing. |
| NormalForm.TrailingZeroSurvives | R_x/Polynomial.h:115 | The last term is never inspected, so 1*x^2 + 0*x^1 keeps its 0*x^1. |
| NormalForm.DegreeAtMostMax | R_x/Polynomial.h:113-122 | The leading exponent after `zero_remove` is at most the largest exponent present. |
| NormalForm.Filled | R_x/Polynomial.h:134-138 | For maximum exponent m, `fill` yields exactly m+1 terms with exponent m-k at index k. Each coefficient is the input's coefficient at that exponent, 0 where the input had none. An empty vector stays empty. |
| Ring.NegSpec | R_x/Polynomial.h:150-156 | Unary `-` is normal, has exponent 0 and the operand's exponents, and negates every coefficient. |
| Ring.SumSpec | R_x/Polynomial.h:158-168 | `a + b` is normal, has exponent 0 and both operands' exponents, and adds the coefficients at every exponent. |
| Ring.DiffSpec | R_x/Polynomial.h:170-180 | `a - b` is normal, has exponent 0 and both operands' exponents, and subtracts the coefficients at every exponent. |
| Ring.ProdSpec | R_x/Polynomial.h:182-191 | `a * b` is normal and has exponent 0. Its other exponents are exactly the sums e_i + e_j of a term of a and a term of b, zero products included (the 0*x^1 of (x+1)(x-1) is kept). The coefficient at every exponent is the sum of the products of the term pairs whose exponents add up to it, indeterminate as soon as one of them is. |
| Ring.PlusTermSpec | R_x/Polynomial.h:193-197 | `p + t` is normal and adds t's coefficient at t's exponent. It adds no 0*x^0 of its own. |
| Ring.MinusTermSpec | R_x/Polynomial.h:199-203 | `p - t` does not depend on p. It is {-t} when t's exponent is 0, and {-t, 0*x^0} otherwise. |
| Ring.TimesTermSpec | R_x/Polynomial.h:205-211 | `p * t` is normal with exponent 0, and its other exponents are exactly p's exponents raised by t's. For any t, the coefficient at a raised exponent e + exp t is p's coefficient of x^e times t's. For a numeric t, the coefficient of x^e is p's coefficient of x^(e - exp t) times t's, and 0 below exp t. |
| Ring.SumCommutes | R_x/Polynomial.h:158-168 | `a + b == b + a`. |
| Ring.SumAssociates | R_x/Polynomial.h:158-168 | `(a + b) + c == a + (b + c)`. |
| Ring.ProdDistributes | R_x/Polynomial.h:158-191 | When the left factor's coefficients are exact, `a * (b + c)` and `a * b + a * c` have the same coefficient at every exponent, even if b or c holds the indeterminate value. |
| Ring.DistributesOnlyByCoefficient | R_x/Polynomial.h:158-191 | The two sides differ as vectors: x^2 * (x + x) keeps a 0*x^2 term that x^2 * x + x^2 * x does not have. |
| Ring.DiffSelfIsZero | R_x/Polynomial.h:170-180 | Over exact numbers, `a - a` keeps a zero term at every exponent of a, and after `zero_remove` it is {0*x^0}. |
| Ring.AllZeroRemoved | R_x/Polynomial.h:113-122 | A polynomial with an x^0 term and only zero coefficients becomes {0*x^0} under `zero_remove`. |
| LongDivision.Eliminate | R_x/Polynomial.h:224-225 | One elimination pass subtracts val times the divisor from the window at `shift`. It leaves every other entry and every exponent alone. |
| LongDivision.Steps | R_x/Polynomial.h:221-227 | After n steps the padded dividend keeps its length and exponents, and n quotient coefficients are recorded. |
| LongDivision.Run | R_x/Polynomial.h:213-227 | The exp_max + 1 steps on the padded operands leave a dense array with exponents deg(a) down to 0 and exp_max + 1 quotient coefficients. |
| LongDivision.QuotientSpec | R_x/Polynomial.h:213-229 | When the divisor's degree after `zero_remove` exceeds the dividend's, `/` is {0*x^0}. Otherwise it has exactly the exponents exp_max down to 0. |
| LongDivision.ModSpec | R_x/Polynomial.h:231-246 | When the divisor's degree exceeds the dividend's, `%` is the combined dividend. Otherwise it is the dense padded array with exponents deg(a) down to 0. |
| LongDivision.RemainderBelowDivisor | R_x/Polynomial.h:231-246 | Over exact numbers, with a nonzero leading divisor coefficient, the remainder is numeric and has coefficient 0 at every exponent from the divisor's degree up. |
| LongDivision.DivisionIdentity | R_x/Polynomial.h:213-246 | Over exact numbers, the quotient is numeric, and at every exponent up to deg(a) the dividend's coefficient equals the remainder's plus that of divisor * quotient. |
| LongDivision.ModDegree | R_x/Polynomial.h:231-246 | With a nonzero leading divisor coefficient, the remainder after `zero_remove` has degree below the divisor's, or is {0*x^0}. |
| Calculus.IntegralSpec | R_x/Polynomial.h:248-255 | `p << n` is normal and contains exponent 0, the constant of integration. |
| Calculus.DeriveSpec | R_x/Polynomial.h:257-263 | `p >> n` has one term per term of the combined p and is not combined again. |
| Calculus.IntegralNoSteps | R_x/Polynomial.h:248-255 | `p << 0` has p's exponents and 0. Every coefficient off x^0 is p's, and the x^0 coefficient is the constant of integration. |
| Calculus.IntegralShape | R_x/Polynomial.h:248-255 | For n >= 1, `p << n` is the combined terms, each shifted up n, followed by C*x^0. |
| Calculus.IntegralExpsUp | R_x/Polynomial.h:248-255 | For n >= 1, every exponent e of p gives an exponent e+n of `p << n`. |
| Calculus.IntegralExpsDown | R_x/Polynomial.h:248-255 | For n >= 1, every exponent of `p << n` is 0 or an exponent of p raised by n. |
| Calculus.IntegralCoeff | R_x/Polynomial.h:248-255 | The coefficient of x^(e+n) in `p << n` is p's coefficient of x^e taken n antiderivative steps. |
| Calculus.DeriveSpecCoeff | R_x/Polynomial.h:257-263 | Read as a polynomial, `p >> n` has at x^e the coefficient of x^(e+n) in p times (e+n)...(e+1). |
| Calculus.DeriveIntegral | R_x/Polynomial.h:248-263 | `(p << n) >> n` gives back every combined term of an exact p. The exceptions: a zero constant term comes back indeterminate, and the constant of integration leaves a trailing 0*x^0. |
| Euclid.Loop | R_x/Polynomial.h:291-296 | Over exact numbers the loop of `&` terminates, and it ends with c_other's leading exponent 0 and the loop invariant kept. |
| Euclid.EuclidStep | R_x/Polynomial.h:291-296 | One iteration keeps the invariant and strictly lowers c_other's leading exponent. |
| Euclid.GcdSpec | R_x/Polynomial.h:289-301 | The result of `&` is normal and contains exponent 0. |
| Euclid.GcdUnit | R_x/Polynomial.h:297-298 | A nonzero constant second operand stops the loop at once, and the result is 1. |
| Euclid.GcdSelf | R_x/Polynomial.h:289-301 | `p & p` for a zero_removed p of positive degree is p scaled by 1/p's leading coefficient, so its leading coefficient is 1. |
| Euclid.ModSelf | R_x/Polynomial.h:231-246 | `p % p` is the zero polynomial after `zero_remove`. |
| Euclid.QuotientSelf | R_x/Polynomial.h:213-229 | `p / p` is the constant 1. |
| Divisibility.ConvIsPolyConv | R_x/Polynomial.h:182-191 | Over exact numbers the coefficient `*` computes is numeric and equals the real convolution sum used by the divisibility proofs. |
| Divisibility.ProdIsMultiple | R_x/Polynomial.h:182-191 | Over exact numbers `h * g` is a multiple of g with cofactor h at every exponent. |
| Divisibility.DivisionEverywhere | R_x/Polynomial.h:213-246 | Over exact numbers with a nonzero leading divisor coefficient, quotient and remainder are numeric, dividend = remainder + quotient * divisor at every exponent, and the remainder vanishes from the divisor's degree up. |
| Divisibility.ExactQuotient | R_x/Polynomial.h:213-246 | When the dividend is w times the divisor, `/` has the same coefficients as w and `%` is zero at every exponent. |
| Divisibility.NoZeroDivisors | R_x/Polynomial.h:182-191 | A product with a factor of nonzero leading coefficient that vanishes from that factor's degree up has a zero cofactor. |
| Divisibility.DividesDividend | R_x/Polynomial.h:213-246 | A common divisor of the divisor and of the remainder `%` divides the dividend. |
| Divisibility.DividesRemainder | R_x/Polynomial.h:213-246 | A common divisor of the dividend and the divisor divides the remainder `%`. |
| Divisibility.ScaledDivides | R_x/Polynomial.h:205-211 | A divisor stays a divisor after multiplication by a nonzero constant term. |
| Divisibility.DividesScaled | R_x/Polynomial.h:205-211 | A multiple stays a multiple after multiplication by any numeric constant term. |
| Divisibility.LoopDivides | R_x/Polynomial.h:291-296 | The loop of `&` keeps a nonzero leading coefficient in `copy`. When it ends on a zero constant, the final `copy` divides both loop operands. |
| Divisibility.GcdDivides | R_x/Polynomial.h:289-305 | The result of `&` divides both operands and has a nonzero leading coefficient. |
| Divisibility.GcdGreatest | R_x/Polynomial.h:289-305 | Every common divisor of the two operands divides the result of `&`. |
| Divisibility.LcmDivides | R_x/Polynomial.h:307-314 | The result of `|` is divisible by both operands. `other * this` has at every exponent the coefficient of the gcd times the lcm, and its division by the gcd leaves a zero remainder. |
| Polynomials.Polynomial.constructor | R_x/Polynomial.h:125-128 | The vector constructor stores the terms combined. |
| Polynomials.Polynomial.Single | R_x/Polynomial.h:130-132 | The term constructor stores the one term without combining. |
| Polynomials.Polynomial.Copy | R_x/Polynomial.h:290 | The copy constructor keeps the terms as they are. |
| Polynomials.Polynomial.Combine | R_x/Polynomial.h:99-112 | The sort and the merge loop leave `terms` equal to `Combined` of the old terms. |
| Polynomials.Polynomial.ZeroRemove | R_x/Polynomial.h:113-122 | The combine and the erase loop leave `terms` equal to `ZeroRemoved` of the old terms. |
| Polynomials.Polynomial.Fill | R_x/Polynomial.h:134-138 | The loop terminates although its bound grows, and leaves `terms` equal to `Filled` of the old terms. |
| Polynomials.Polynomial.AddTerm | R_x/Polynomial.h:140-148 | `terms` becomes the old terms with the new term appended, combined. |
| Polynomials.Polynomial.Negated | R_x/Polynomial.h:150-156 | The `addTerm` loop builds `NegSpec` of the operand. |
| Polynomials.Polynomial.Sum | R_x/Polynomial.h:158-168 | The two `addTerm` loops build `SumSpec` of the operands. |
| Polynomials.Polynomial.Difference | R_x/Polynomial.h:170-180 | The two `addTerm` loops build `DiffSpec` of the operands. |
| Polynomials.Polynomial.Product | R_x/Polynomial.h:182-191 | The nested `addTerm` loops build `ProdSpec` of the operands. |
| Polynomials.Polynomial.PlusTerm | R_x/Polynomial.h:193-197 | The result is `PlusTermSpec` of the operands. |
| Polynomials.Polynomial.MinusTerm | R_x/Polynomial.h:199-203 | The result is `MinusTermSpec`, which does not depend on p. |
| Polynomials.Polynomial.TimesTerm | R_x/Polynomial.h:205-211 | The `addTerm` loop builds `TimesTermSpec` of the operands. |
| Polynomials.Polynomial.Padded | R_x/Polynomial.h:213-217 | Both operands are put through `zero_remove` and `fill` into fresh copies, and exp_max is the difference of their degrees. |
| Polynomials.Polynomial.SubtractShifted | R_x/Polynomial.h:224-225 | The inner loop of `/` and `%` performs one `Eliminate` pass in place. |
| Polynomials.Polynomial.Quotient | R_x/Polynomial.h:213-229 | `/` returns `QuotientSpec` of the operands. |
| Polynomials.Polynomial.QuotientLoop | R_x/Polynomial.h:221-227 | The shift loop adds the quotient term of each of the exp_max + 1 steps. |
| Polynomials.Polynomial.Remainder | R_x/Polynomial.h:231-246 | `%` returns `ModSpec` of the operands. |
| Polynomials.Polynomial.RemainderLoop | R_x/Polynomial.h:239-244 | The shift loop leaves the padded dividend reduced by exp_max + 1 steps. |
| Polynomials.Polynomial.Integrate | R_x/Polynomial.h:248-255 | `<<` returns `IntegralSpec` of the operand (see Findings for the loop bound). |
| Polynomials.Polynomial.Differentiate | R_x/Polynomial.h:257-263 | `>>` returns `DeriveSpec` of the operand (see Findings for the loop bound). |
| Polynomials.Polynomial.Integral | R_x/Polynomial.h:265-267 | `integral()` is `<< 1`. |
| Polynomials.Polynomial.Gcd | R_x/Polynomial.h:289-305 | Over exact numbers the `while` loop terminates, and `&` (and `gcd`) returns `GcdSpec` of the operands. |
| Polynomials.Polynomial.EuclidRound | R_x/Polynomial.h:292-295 | One round moves c_other to copy and copy % c_other to c_other, both put through `zero_remove`. |
| Polynomials.Polynomial.Lcm | R_x/Polynomial.h:307-314 | `|` (and `lcm`) returns (other * p) / (p & other), with p combined. |
| Polynomials.ShiftLoopOverrun | R_x/Polynomial.h:248-263 | `(x + 1) >> 1` has two terms that combine into one, so a loop over the uncombined length would index past the combined copy. |

## Left out

- Printing (`Term::print`, `Polynomial::print`) is console output, so it is not modelled.
- Point evaluation and definite integration are not modelled: `Term::at`, `evaluated`, `operator[]`, and `Polynomial::at`, `evaluated`, `operator[]`, `integral(start, end)`. They are floating-point evaluation through `std::pow`.
- `operator^` is not modelled: it only composes `|`, `&` and `/`.
- Floating-point rounding is not modelled. Coefficients are exact reals, and every NaN or infinity is one value, `Indet`. With floats, the leading coefficient need not cancel to exactly 0 in division, so neither the remainder bound nor the termination of `&` would hold.
- Exponents are unbounded naturals. The 32-bit `unsigned` exponent and the `int` loop counters of the source could wrap; the model does not wrap them.
- `std::sort` is library code with an unspecified order among equal exponents. It is modelled as a stable insertion sort. `NormalForm.CombinedCongruent` shows the merged result does not depend on that order.
- The two `addTerm` overloads are one method, `AddTerm`, taking a `Term`.
- The named aliases `gcd` and `lcm` are the methods `Gcd` and `Lcm`.
- Polynomials.Polynomial.ZeroRemove: requires a nonempty vector. On an empty one, `terms.size() - 1` underflows and the source indexes out of range. `Quotient`, `Remainder` and `EuclidRound`, which call it, require the same.
- Polynomials.Polynomial.Gcd: requires exact coefficients. The first operand's leading coefficient after `zero_remove` must be nonzero unless it is constant. The second operand's leading coefficient after `zero_remove` must be nonzero unless its first term is constant. So `0*x^1 + 0*x^0` (what `x - x` gives) is excluded, and on it the source's first `%` divides by zero. The second operand must also be sorted by descending exponent, as every `Polynomial` value is, since `&` copies it without combining. Outside these conditions the source's loop need not terminate. `Lcm` requires the same.
- Polynomials.Polynomial.Integrate: loops over the combined copy's own length, not the source's `this->terms.size()` (see Findings).
- Polynomials.Polynomial.Differentiate: loops over the combined copy's own length, not the source's `this->terms.size()` (see Findings).
- Ring.ProdDistributes: states `a * (b + c) == a * b + a * c` coefficient by coefficient only, because as vectors the two sides can differ in zero terms, as `Ring.DistributesOnlyByCoefficient` shows. With an indeterminate coefficient in a, the two sides can differ at an exponent where only one of them has a product term, so a's coefficients must be exact.
- Divisibility.GcdDivides: also requires the second operand's raw first coefficient to be nonzero. `&` scales its result by 1 / `other.terms[0].coef` (R_x/Polynomial.h:300), the raw first coefficient, not the leading one after `zero_remove`. That coefficient is 0 when the second operand is 0*x^0, and also when it keeps a cancelled top term: `(x^2 + x) - x^2` is 0*x^2 + 1*x + 0*x^0. If the loop then ends on a zero constant, every coefficient of the result is indeterminate, so it divides nothing.
- Divisibility.LcmDivides: also requires the second operand's raw first coefficient to be nonzero, because the lcm divides by the gcd, which is all indeterminate in the case `GcdDivides` excludes.
- Divisibility.GcdGreatest: also requires a second operand in normal form and a divisor with a nonzero leading coefficient. A raw second operand such as 1*x^0 - 1*x^0 is zero, yet `&` stops on its nonzero first term and returns 1.

## Findings

| source | as written | input that shows it | evidently intended | confidence | as-written member | corrected member |
|---|---|---|---|---|---|---|
| R_x/Polynomial.h:248-263 | `<<` and `>>` combine a copy of the terms, then loop i up to `this->terms.size()` while indexing the combined copy | `(x + 1) >> 1` is {1*x^0, 0*x^0}; its own `<<` or `>>` combines that into one term and then reads index 1 | loop up to `result.terms.size()` | high, not executed | Polynomials.ShiftLoopOverrun | Polynomials.Polynomial.Integrate, Polynomials.Polynomial.Differentiate |
