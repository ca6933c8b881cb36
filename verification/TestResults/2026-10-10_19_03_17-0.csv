TestResult.DisplayName,TestResult.Outcome,TestResult.Duration,TestResult.ResourceCount,RandomSeed
Auth.EmptyEmailFailsValidation (correctness),Failed,00:00:25.7497094,2118867,3
Auth.EmptyEmailIs422 (well-formedness),Passed,00:00:00.5671963,287790,3
Auth.EmptyEmailIs422 (correctness),Passed,00:00:00.3743787,326038,3
Auth.EmptyEmailFailsValidation (well-formedness),Passed,00:00:00.2025021,119575,3
